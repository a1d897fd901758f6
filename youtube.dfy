/** The YouTube part of src/lib/utils.ts: the oEmbed request address and the
    manifest file of video URLs (one per line) resolved into a map from URL
    to oEmbed metadata. */
module YouTube {
  import opened Wrappers
  import opened JsStrings
  import opened R2Access

  const OEMBED_PREFIX := "https://www.youtube.com/oembed?url="
  const OEMBED_SUFFIX := "&format=json"

  /** `createYoutubeOembedUrl`: the oEmbed consumer request for a video URL,
      with the URL inserted as it is (not percent-encoded). */
  function CreateYoutubeOembedUrl(youtubeUrl: string): (r: string)
    ensures |r| == |OEMBED_PREFIX| + |youtubeUrl| + |OEMBED_SUFFIX|
  {
    OEMBED_PREFIX + youtubeUrl + OEMBED_SUFFIX
  }

  /** The video URL an oEmbed request address asks about, if it has the shape
      `createYoutubeOembedUrl` produces. */
  function OembedTarget(request: string): Option<string>
  {
    if |OEMBED_PREFIX| + |OEMBED_SUFFIX| <= |request|
       && request[..|OEMBED_PREFIX|] == OEMBED_PREFIX
       && request[|request| - |OEMBED_SUFFIX|..] == OEMBED_SUFFIX
    then Some(request[|OEMBED_PREFIX|..|request| - |OEMBED_SUFFIX|])
    else None
  }

  /** Building a request and reading its target back are inverse: every URL is
      recovered unchanged, and every request of that shape is built from the
      URL it names. */
  lemma OembedRoundTrip(youtubeUrl: string, request: string)
    ensures OembedTarget(CreateYoutubeOembedUrl(youtubeUrl)) == Some(youtubeUrl)
    ensures OembedTarget(request) == Some(youtubeUrl) <==> CreateYoutubeOembedUrl(youtubeUrl) == request
  {
    var r := CreateYoutubeOembedUrl(youtubeUrl);
    assert r[..|OEMBED_PREFIX|] == OEMBED_PREFIX;
    assert r[|r| - |OEMBED_SUFFIX|..] == OEMBED_SUFFIX;
    assert r[|OEMBED_PREFIX|..|r| - |OEMBED_SUFFIX|] == youtubeUrl;
    if OembedTarget(request) == Some(youtubeUrl) {
      assert request == request[..|OEMBED_PREFIX|] + request[|OEMBED_PREFIX|..|request| - |OEMBED_SUFFIX|]
                        + request[|request| - |OEMBED_SUFFIX|..];
    }
  }

  /** The metadata document the oEmbed endpoint answers with. */
  datatype YouTubeOEmbedResponse = YouTubeOEmbedResponse(
    title: string,
    authorName: string,
    authorUrl: string,
    kind: string,
    height: int,
    width: int,
    version: string,
    providerName: string,
    providerUrl: string,
    thumbnailHeight: int,
    thumbnailWidth: int,
    thumbnailUrl: string,
    html: string)

  /** `fetchYoutubeOembedData`, as the endpoint answers during one call: the
      metadata, or a failure, for an oEmbed request made for the URL on line
      `n` of the non-blank lines. Indexing by line lets a repeated URL get a
      different answer each time it is requested. */
  type OembedFetch = (string, nat) -> Result<YouTubeOEmbedResponse>

  /** A JavaScript `Map`: its keys in insertion order and its entries. */
  datatype VideoMap = VideoMap(order: seq<string>, entries: map<string, YouTubeOEmbedResponse>)

  /** `Map.prototype.set`: a new key goes to the end, an existing one keeps its place. */
  function MapSet(m: VideoMap, key: string, value: YouTubeOEmbedResponse): (r: VideoMap)
    ensures r.entries == m.entries[key := value]
    ensures key in m.entries ==> r.order == m.order
    ensures key !in m.entries ==> r.order == m.order + [key]
  {
    VideoMap(if key in m.entries then m.order else m.order + [key], m.entries[key := value])
  }

  function ManifestError(filePath: string): string
  {
    "Failed to process YouTube videos from file " + filePath
  }

  /** The lines of the manifest, cut at every line feed, that hold something
      other than white space, in file order. */
  function NonBlankLines(text: string): seq<string>
  {
    NonBlank(Split(text, '\n'))
  }

  function NonBlank(lines: seq<string>): seq<string>
  {
    if lines == [] then []
    else NonBlank(lines[..|lines| - 1]) + (if Trim(Last(lines)) != "" then [Last(lines)] else [])
  }

  /** Each line trimmed: the key the loop computes for it. */
  function Trimmed(lines: seq<string>): (keys: seq<string>)
    ensures |keys| == |lines|
    ensures forall i :: 0 <= i < |lines| ==> keys[i] == Trim(lines[i])
  {
    seq(|lines|, i requires 0 <= i < |lines| => Trim(lines[i]))
  }

  /** The keys the loop stores, in visiting order: the empty ones passed over. */
  function NonEmpty(keys: seq<string>): seq<string>
  {
    if keys == [] then []
    else NonEmpty(keys[..|keys| - 1]) + (if Last(keys) != "" then [Last(keys)] else [])
  }

  /** The map keys a manifest text yields. */
  function ManifestKeys(text: string): seq<string>
  {
    NonEmpty(Trimmed(NonBlankLines(text)))
  }

  /** Every request the loop makes over `keys` succeeds: the one for each
      non-empty key, made with that line's index. */
  predicate Resolves(keys: seq<string>, oembed: OembedFetch)
  {
    forall i :: 0 <= i < |keys| && keys[i] != "" ==> oembed(CreateYoutubeOembedUrl(keys[i]), i).Ok?
  }

  /** The map the loop builds over the lines' keys when every request
      succeeds: one `Map.set` per non-empty key, in line order. */
  function ResolvedMap(keys: seq<string>, oembed: OembedFetch): VideoMap
    requires Resolves(keys, oembed)
  {
    if keys == [] then VideoMap([], map[])
    else
      var n := |keys| - 1;
      var m := ResolvedMap(keys[..n], oembed);
      var key := keys[n];
      if key != "" then MapSet(m, key, oembed(CreateYoutubeOembedUrl(key), n).value) else m
  }

  /** What `getYoutubeVideosFromR2File` settles with, given the file read: the
      map of all keys when the file and every metadata fetch succeed, one
      error otherwise. */
  function ManifestOutcome(filePath: string, content: Result<string>, oembed: OembedFetch): Result<VideoMap>
  {
    match content
    case Err(_) => Err(ManifestError(filePath))
    case Ok(text) =>
      var keys := Trimmed(NonBlankLines(text));
      if Resolves(keys, oembed) then Ok(ResolvedMap(keys, oembed)) else Err(ManifestError(filePath))
  }

  lemma {:induction false} NonBlankMembers(lines: seq<string>)
    ensures forall u :: u in NonBlank(lines) <==> u in lines && Trim(u) != ""
  {
    if lines != [] {
      var p := lines[..|lines| - 1];
      NonBlankMembers(p);
      assert lines == p + [Last(lines)];
    }
  }

  lemma {:induction false} NonEmptyMembers(keys: seq<string>)
    ensures forall k :: k in NonEmpty(keys) <==> k in keys && k != ""
  {
    if keys != [] {
      var p := keys[..|keys| - 1];
      NonEmptyMembers(p);
      assert keys == p + [Last(keys)];
    }
  }

  /** The keys are exactly the trimmed non-blank lines of the manifest. */
  lemma ManifestKeysAreLines(text: string)
    ensures forall k :: k in ManifestKeys(text) <==>
      exists line :: line in Split(text, '\n') && Trim(line) != "" && Trim(line) == k
  {
    var lines := NonBlankLines(text);
    var keys := Trimmed(lines);
    NonBlankMembers(Split(text, '\n'));
    NonEmptyMembers(keys);
    forall k | k in keys
      ensures exists line :: line in lines && Trim(line) == k
    {
      var i :| 0 <= i < |keys| && keys[i] == k;
      assert lines[i] in lines;
    }
    forall line | line in lines
      ensures Trim(line) in keys
    {
      var i :| 0 <= i < |lines| && lines[i] == line;
      assert keys[i] == Trim(line);
    }
  }

  /** `Resolves` of a prefix. */
  lemma ResolvesPrefix(keys: seq<string>, n: nat, oembed: OembedFetch)
    requires n <= |keys| && Resolves(keys, oembed)
    ensures Resolves(keys[..n], oembed)
  {
    var p := keys[..n];
    forall i | 0 <= i < |p| && p[i] != ""
      ensures oembed(CreateYoutubeOembedUrl(p[i]), i).Ok?
    {
      assert p[i] == keys[i];
    }
  }

  /** The map's order lists its keys each once, in order of first appearance,
      and its entries hold exactly the non-empty keys. */
  lemma {:induction false} ResolvedMapKeys(keys: seq<string>, oembed: OembedFetch)
    requires Resolves(keys, oembed)
    ensures ResolvedMap(keys, oembed).order == Distinct(NonEmpty(keys))
    ensures forall k :: k in ResolvedMap(keys, oembed).entries <==> k in NonEmpty(keys)
  {
    if keys != [] {
      var n := |keys| - 1;
      var p := keys[..n];
      ResolvesPrefix(keys, n, oembed);
      ResolvedMapKeys(p, oembed);
      assert NonEmpty(keys) == NonEmpty(p) + (if keys[n] != "" then [keys[n]] else []);
      var before := ResolvedMap(p, oembed);
      if keys[n] != "" {
        var key := keys[n];
        assert ResolvedMap(keys, oembed) == MapSet(before, key, oembed(CreateYoutubeOembedUrl(key), n).value);
        assert key in before.entries <==> key in NonEmpty(p);
        DistinctSnoc(NonEmpty(p), key);
      } else {
        assert ResolvedMap(keys, oembed) == before;
        assert NonEmpty(keys) == NonEmpty(p);
      }
    }
  }

  /** Each entry is the answer to the request of the last line with that key:
      a later request for a repeated URL overwrites the earlier answer. */
  lemma {:induction false} ResolvedMapValues(keys: seq<string>, oembed: OembedFetch)
    requires Resolves(keys, oembed)
    ensures var m := ResolvedMap(keys, oembed);
      forall k :: k in m.entries ==> (k != "" &&
        exists i :: (0 <= i < |keys| && keys[i] == k &&
          oembed(CreateYoutubeOembedUrl(k), i) == Ok(m.entries[k]) &&
          forall j :: i < j < |keys| ==> keys[j] != k))
  {
    if keys != [] {
      var n := |keys| - 1;
      var p := keys[..n];
      ResolvesPrefix(keys, n, oembed);
      ResolvedMapValues(p, oembed);
      var before := ResolvedMap(p, oembed);
      var m := ResolvedMap(keys, oembed);
      forall k | k in m.entries
        ensures k != "" &&
          exists i :: (0 <= i < |keys| && keys[i] == k &&
            oembed(CreateYoutubeOembedUrl(k), i) == Ok(m.entries[k]) &&
            forall j :: i < j < |keys| ==> keys[j] != k)
      {
        if keys[n] != "" && k == keys[n] {
          assert oembed(CreateYoutubeOembedUrl(k), n) == Ok(m.entries[k]);
        } else {
          assert k in before.entries && m.entries[k] == before.entries[k];
          var i :| 0 <= i < |p| && p[i] == k &&
            oembed(CreateYoutubeOembedUrl(k), i) == Ok(before.entries[k]) &&
            forall j :: i < j < |p| ==> p[j] != k;
          assert keys[i] == k;
          forall j | i < j < |keys|
            ensures keys[j] != k
          {
            if j < n {
              assert p[j] == keys[j];
            }
          }
        }
      }
    }
  }

  /** Every non-blank line of the manifest holds something other than white space. */
  lemma {:induction false} NonBlankTrimmed(lines: seq<string>)
    ensures forall i :: 0 <= i < |NonBlank(lines)| ==> Trim(NonBlank(lines)[i]) != ""
  {
    if lines != [] {
      NonBlankTrimmed(lines[..|lines| - 1]);
    }
  }

  /** The manifest resolves exactly when the file is read and the request for
      every non-blank line succeeds; one failed request fails the whole call
      with a single error and no partial map. */
  lemma ManifestOutcomeSpec(filePath: string, content: Result<string>, oembed: OembedFetch)
    ensures ManifestOutcome(filePath, content, oembed).Ok? <==>
      content.Ok? &&
      var lines := NonBlankLines(content.value);
      forall i :: 0 <= i < |lines| ==> oembed(CreateYoutubeOembedUrl(Trim(lines[i])), i).Ok?
    ensures ManifestOutcome(filePath, content, oembed).Err? ==>
      ManifestOutcome(filePath, content, oembed).error == ManifestError(filePath)
  {
    if content.Ok? {
      NonBlankTrimmed(Split(content.value, '\n'));
    }
  }

  /** A resolved manifest's keys are the distinct trimmed non-blank lines of
      the file, each once, in the map's order as well as among its entries. */
  lemma ManifestMapKeys(filePath: string, text: string, oembed: OembedFetch)
    requires ManifestOutcome(filePath, Ok(text), oembed).Ok?
    ensures var m := ManifestOutcome(filePath, Ok(text), oembed).value;
      NoDuplicates(m.order) &&
      (forall k :: k in m.order <==> k in m.entries) &&
      (forall k :: k in m.entries <==>
        exists line :: line in Split(text, '\n') && Trim(line) != "" && Trim(line) == k)
  {
    ResolvedMapKeys(Trimmed(NonBlankLines(text)), oembed);
    ManifestKeysAreLines(text);
    DistinctSpec(ManifestKeys(text));
  }

  /** Each key of a resolved manifest is non-empty with no white space at
      either end, and maps to the answer to the request made for the last
      non-blank line with that key. */
  lemma ManifestMapValues(filePath: string, text: string, oembed: OembedFetch)
    requires ManifestOutcome(filePath, Ok(text), oembed).Ok?
    ensures var m := ManifestOutcome(filePath, Ok(text), oembed).value;
      var lines := NonBlankLines(text);
      forall k :: k in m.entries ==> (
        && k != "" && !IsWhitespace(k[0]) && !IsWhitespace(k[|k| - 1])
        && exists i :: (0 <= i < |lines| && Trim(lines[i]) == k &&
             oembed(CreateYoutubeOembedUrl(k), i) == Ok(m.entries[k]) &&
             forall j :: i < j < |lines| ==> Trim(lines[j]) != k))
  {
    LinesMapValues(NonBlankLines(text), oembed);
  }

  /** `ResolvedMapValues` for the keys of `lines`, read back through `Trim`. */
  lemma LinesMapValues(lines: seq<string>, oembed: OembedFetch)
    requires Resolves(Trimmed(lines), oembed)
    ensures var m := ResolvedMap(Trimmed(lines), oembed);
      forall k :: k in m.entries ==> (
        && k != "" && !IsWhitespace(k[0]) && !IsWhitespace(k[|k| - 1])
        && exists i :: (0 <= i < |lines| && Trim(lines[i]) == k &&
             oembed(CreateYoutubeOembedUrl(k), i) == Ok(m.entries[k]) &&
             forall j :: i < j < |lines| ==> Trim(lines[j]) != k))
  {
    var keys := Trimmed(lines);
    var m := ResolvedMap(keys, oembed);
    ResolvedMapValues(keys, oembed);
    forall k | k in m.entries
      ensures k != "" && !IsWhitespace(k[0]) && !IsWhitespace(k[|k| - 1])
      ensures exists i :: (0 <= i < |lines| && Trim(lines[i]) == k &&
        oembed(CreateYoutubeOembedUrl(k), i) == Ok(m.entries[k]) &&
        forall j :: i < j < |lines| ==> Trim(lines[j]) != k)
    {
      var i :| 0 <= i < |keys| && keys[i] == k &&
        oembed(CreateYoutubeOembedUrl(k), i) == Ok(m.entries[k]) &&
        forall j :: i < j < |keys| ==> keys[j] != k;
      TrimmedLast(lines, i, k);
    }
  }

  /** The line whose key is `k`, with no later line of that key, read back
      through `Trim`. */
  lemma TrimmedLast(lines: seq<string>, i: nat, k: string)
    requires i < |lines| && Trimmed(lines)[i] == k && k != ""
    requires forall j :: i < j < |lines| ==> Trimmed(lines)[j] != k
    ensures Trim(lines[i]) == k && !IsWhitespace(k[0]) && !IsWhitespace(k[|k| - 1])
    ensures forall j :: i < j < |lines| ==> Trim(lines[j]) != k
  {
    forall j | i < j < |lines|
      ensures Trim(lines[j]) != k
    {
      assert Trimmed(lines)[j] == Trim(lines[j]);
    }
  }

  /** `getYoutubeVideosFromR2File`: reads the manifest, then sets one map
      entry per non-blank line, fetching its metadata in line order and
      giving up on the first failure. */
  method GetYoutubeVideosFromR2File(filePath: string, env: Option<Env>, fetch: Fetch, oembed: OembedFetch)
    returns (r: Result<VideoMap>)
    ensures r == ManifestOutcome(filePath, FileRead(filePath, env, fetch), oembed)
  {
    var fileContent, _ := GetFileFromR2(filePath, env, fetch);
    if fileContent.Err? {
      return Err(ManifestError(filePath));
    }
    var youtubeUrls := NonBlankLines(fileContent.value);
    ghost var keys := Trimmed(youtubeUrls);
    var videoMap := VideoMap([], map[]);
    for i := 0 to |youtubeUrls|
      invariant Resolves(keys[..i], oembed)
      invariant videoMap == ResolvedMap(keys[..i], oembed)
    {
      var trimmedUrl := Trim(youtubeUrls[i]);
      if trimmedUrl != "" {
        var oembedUrl := CreateYoutubeOembedUrl(trimmedUrl);
        var oembedData := oembed(oembedUrl, i);
        if oembedData.Err? {
          assert !Resolves(keys, oembed);
          return Err(ManifestError(filePath));
        }
        videoMap := MapSet(videoMap, trimmedUrl, oembedData.value);
      }
      ResolvedMapStep(keys, i, oembed);
    }
    assert keys[..|keys|] == keys;
    return Ok(videoMap);
  }

  /** One more line: the loop's map over the longer prefix. */
  lemma ResolvedMapStep(keys: seq<string>, i: nat, oembed: OembedFetch)
    requires i < |keys| && Resolves(keys[..i], oembed)
    requires keys[i] != "" ==> oembed(CreateYoutubeOembedUrl(keys[i]), i).Ok?
    ensures Resolves(keys[..i + 1], oembed)
    ensures ResolvedMap(keys[..i + 1], oembed) ==
      if keys[i] != "" then MapSet(ResolvedMap(keys[..i], oembed), keys[i], oembed(CreateYoutubeOembedUrl(keys[i]), i).value)
      else ResolvedMap(keys[..i], oembed)
  {
    var q := keys[..i + 1];
    assert q[..i] == keys[..i];
    forall j | 0 <= j < |q| && q[j] != ""
      ensures oembed(CreateYoutubeOembedUrl(q[j]), j).Ok?
    {
      assert q[j] == keys[j];
      if j < i {
        assert keys[..i][j] == keys[j];
      }
    }
  }
}
