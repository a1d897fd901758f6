/** Fetching from the R2 bucket as src/lib/utils.ts does: listing and file
    reads over the S3-compatible API with a bounded retry loop, the same two
    reads through a Cloudflare Workers binding, and the dispatch between them. */
module R2Access {
  import opened Wrappers
  import opened JsStrings
  import opened R2Listing

  const MAX_RETRIES: nat := 5
  const RETRY_DELAY_MS: nat := 1000
  const R2_ENDPOINT := "https://b1d89b04dac23ca559dcfb1d5c79f341.r2.cloudflarestorage.com"

  /** The name under which a Workers environment carries the bucket binding. */
  const R2_BINDING := "vm-personal-r2"

  const LIST_RETRY_ERROR := "Failed to list R2 documents after retries."
  const LIST_BINDING_ERROR := "Failed to list R2 documents using binding."

  function FileRetryError(filePath: string): string
  {
    "Failed to get file " + filePath + " after retries."
  }

  function FileBindingError(filePath: string): string
  {
    "Failed to get file " + filePath + " using binding."
  }

  /** The `ListObjectsV2` request for the whole bucket. */
  function ListUrl(): string
  {
    R2_ENDPOINT + "/" + R2_BUCKET_NAME + "?list-type=2"
  }

  /** The `GetObject` request for one object. */
  function FileUrl(filePath: string): string
  {
    R2_ENDPOINT + "/" + R2_BUCKET_NAME + "/" + filePath
  }

  // ---------------------------------------------------------------------------
  // Retry policy over abstract request outcomes
  // ---------------------------------------------------------------------------

  /** What one signed request ends in: a response (its `ok` flag, status and
      text), or an exception thrown by the transport. */
  datatype HttpOutcome = Response(ok: bool, status: int, body: string) | Thrown

  /** The transport: the outcome of asking for `url` on a given attempt. */
  type Fetch = (string, nat) -> HttpOutcome

  /** The observable course of a retry run: attempts and the waits between them. */
  datatype Event = Attempt(n: nat) | Sleep(ms: nat)

  /** Which of the two retrying reads is running; they accept different responses. */
  datatype Purpose = Listing | FileContent

  /** Whether an attempt succeeds: the response must be `ok`, and a file read
      also rejects an empty body. */
  predicate Accepts(purpose: Purpose, outcome: HttpOutcome)
  {
    outcome.Response? && outcome.ok && (purpose == FileContent ==> outcome.body != "")
  }

  /** The first accepted attempt numbered `from` or later, within the budget. */
  function FirstAccepted(fetch: Fetch, url: string, purpose: Purpose, from: nat): (r: Option<nat>)
    requires 1 <= from
    ensures r.Some? ==> from <= r.value <= MAX_RETRIES
    decreases MAX_RETRIES + 1 - from
  {
    if from > MAX_RETRIES then None
    else if Accepts(purpose, fetch(url, from)) then Some(from)
    else FirstAccepted(fetch, url, purpose, from + 1)
  }

  /** How many attempts a run makes: up to the first success, else all of them. */
  function AttemptsMade(fetch: Fetch, url: string, purpose: Purpose): nat
  {
    match FirstAccepted(fetch, url, purpose, 1)
    case Some(k) => k
    case None => MAX_RETRIES
  }

  /** Attempts 1 to `k`, each followed by a wait. */
  function Slept(k: nat): seq<Event>
  {
    if k == 0 then [] else Slept(k - 1) + [Attempt(k), Sleep(RETRY_DELAY_MS)]
  }

  /** A run of `k` attempts: a wait after every attempt but the last. */
  function Trace(k: nat): seq<Event>
    requires 1 <= k
  {
    Slept(k - 1) + [Attempt(k)]
  }

  /** The value `listDocumentsFromR2` settles with. */
  function ListingOutcome(fetch: Fetch): Result<seq<R2Document>>
  {
    match FirstAccepted(fetch, ListUrl(), Listing, 1)
    case Some(k) => Ok(ListingDocuments(fetch(ListUrl(), k).body))
    case None => Err(LIST_RETRY_ERROR)
  }

  /** The value `getFileContentUsingS3Api` settles with. */
  function FileOutcome(filePath: string, fetch: Fetch): Result<string>
  {
    match FirstAccepted(fetch, FileUrl(filePath), FileContent, 1)
    case Some(k) => Ok(fetch(FileUrl(filePath), k).body)
    case None => Err(FileRetryError(filePath))
  }

  /** `FirstAccepted` finds the earliest accepted attempt, and `None` means
      every remaining attempt fails. */
  lemma {:induction false} FirstAcceptedFirst(fetch: Fetch, url: string, purpose: Purpose, from: nat)
    requires 1 <= from
    ensures FirstAccepted(fetch, url, purpose, from).Some? ==>
      var k := FirstAccepted(fetch, url, purpose, from).value;
      Accepts(purpose, fetch(url, k)) &&
      forall m :: from <= m < k ==> !Accepts(purpose, fetch(url, m))
    ensures FirstAccepted(fetch, url, purpose, from).None? <==>
      forall m :: from <= m <= MAX_RETRIES ==> !Accepts(purpose, fetch(url, m))
    decreases MAX_RETRIES + 1 - from
  {
    if from <= MAX_RETRIES && !Accepts(purpose, fetch(url, from)) {
      FirstAcceptedFirst(fetch, url, purpose, from + 1);
    }
  }

  lemma {:induction false} SleptShape(k: nat)
    ensures |Slept(k)| == 2 * k
    ensures forall i :: 0 <= i < |Slept(k)| ==>
      Slept(k)[i] == if i % 2 == 0 then Attempt(i / 2 + 1) else Sleep(RETRY_DELAY_MS)
  {
    if k > 0 {
      SleptShape(k - 1);
    }
  }

  /** A run of `k` attempts numbers them 1 to `k` in order, waits
      `RETRY_DELAY_MS` between consecutive attempts and never after the last. */
  lemma TraceShape(k: nat)
    requires 1 <= k
    ensures |Trace(k)| == 2 * k - 1
    ensures forall i :: 0 <= i < |Trace(k)| ==>
      Trace(k)[i] == if i % 2 == 0 then Attempt(i / 2 + 1) else Sleep(RETRY_DELAY_MS)
    ensures Trace(k)[|Trace(k)| - 1] == Attempt(k)
  {
    SleptShape(k - 1);
  }

  /** The listing retry settles with the documents of the first `ok`
      response among five attempts, and fails only when all five fail. */
  lemma ListingOutcomeSpec(fetch: Fetch)
    ensures ListingOutcome(fetch).Ok? <==>
      exists k :: 1 <= k <= MAX_RETRIES && Accepts(Listing, fetch(ListUrl(), k))
    ensures ListingOutcome(fetch).Err? ==> ListingOutcome(fetch).error == LIST_RETRY_ERROR
    ensures ListingOutcome(fetch).Ok? ==>
      var k := AttemptsMade(fetch, ListUrl(), Listing);
      1 <= k <= MAX_RETRIES &&
      fetch(ListUrl(), k).Response? && fetch(ListUrl(), k).ok &&
      ListingOutcome(fetch).value == ListingDocuments(fetch(ListUrl(), k).body) &&
      forall m :: 1 <= m < k ==> !Accepts(Listing, fetch(ListUrl(), m))
  {
    FirstAcceptedFirst(fetch, ListUrl(), Listing, 1);
  }

  /** The file retry settles with a non-empty body of the first `ok`
      response, so an empty body counts as a failed attempt. */
  lemma FileOutcomeSpec(filePath: string, fetch: Fetch)
    ensures FileOutcome(filePath, fetch).Ok? <==>
      exists k :: 1 <= k <= MAX_RETRIES && Accepts(FileContent, fetch(FileUrl(filePath), k))
    ensures FileOutcome(filePath, fetch).Err? ==> FileOutcome(filePath, fetch).error == FileRetryError(filePath)
    ensures FileOutcome(filePath, fetch).Ok? ==>
      var k := AttemptsMade(fetch, FileUrl(filePath), FileContent);
      1 <= k <= MAX_RETRIES && FileOutcome(filePath, fetch).value != "" &&
      fetch(FileUrl(filePath), k) == Response(true, fetch(FileUrl(filePath), k).status, FileOutcome(filePath, fetch).value) &&
      forall m :: 1 <= m < k ==> !Accepts(FileContent, fetch(FileUrl(filePath), m))
  {
    FirstAcceptedFirst(fetch, FileUrl(filePath), FileContent, 1);
  }

  /** A run makes at most `MAX_RETRIES` attempts, and all of them only when
      none before the last succeeded. */
  lemma AttemptsBound(fetch: Fetch, url: string, purpose: Purpose)
    ensures 1 <= AttemptsMade(fetch, url, purpose) <= MAX_RETRIES
    ensures forall m :: 1 <= m < AttemptsMade(fetch, url, purpose) ==> !Accepts(purpose, fetch(url, m))
  {
    FirstAcceptedFirst(fetch, url, purpose, 1);
  }

  /** `listDocumentsFromR2`: up to five attempts with a wait between
      consecutive ones; parses the first `ok` response. */
  method ListDocumentsFromR2(fetch: Fetch) returns (r: Result<seq<R2Document>>, trace: seq<Event>)
    ensures r == ListingOutcome(fetch)
    ensures trace == Trace(AttemptsMade(fetch, ListUrl(), Listing))
  {
    var url := ListUrl();
    trace := [];
    var attempt: nat := 1;
    while attempt < MAX_RETRIES
      invariant 1 <= attempt <= MAX_RETRIES
      invariant trace == Slept(attempt - 1)
      invariant FirstAccepted(fetch, url, Listing, 1) == FirstAccepted(fetch, url, Listing, attempt)
      decreases MAX_RETRIES - attempt
    {
      var response := fetch(url, attempt);
      trace := trace + [Attempt(attempt)];
      if Accepts(Listing, response) {
        var documents := ParseListObjectsXml(response.body);
        return Ok(documents), trace;
      }
      trace := trace + [Sleep(RETRY_DELAY_MS)];
      attempt := attempt + 1;
    }
    var response := fetch(url, attempt);
    trace := trace + [Attempt(attempt)];
    if Accepts(Listing, response) {
      var documents := ParseListObjectsXml(response.body);
      r := Ok(documents);
    } else {
      r := Err(LIST_RETRY_ERROR);
    }
  }

  /** `getFileContentUsingS3Api`: the same policy for one object, where an
      empty body is a failed attempt. */
  method GetFileContentUsingS3Api(filePath: string, fetch: Fetch) returns (r: Result<string>, trace: seq<Event>)
    ensures r == FileOutcome(filePath, fetch)
    ensures trace == Trace(AttemptsMade(fetch, FileUrl(filePath), FileContent))
  {
    var url := FileUrl(filePath);
    trace := [];
    var attempt: nat := 1;
    while attempt < MAX_RETRIES
      invariant 1 <= attempt <= MAX_RETRIES
      invariant trace == Slept(attempt - 1)
      invariant FirstAccepted(fetch, url, FileContent, 1) == FirstAccepted(fetch, url, FileContent, attempt)
      decreases MAX_RETRIES - attempt
    {
      var response := fetch(url, attempt);
      trace := trace + [Attempt(attempt)];
      if Accepts(FileContent, response) {
        return Ok(response.body), trace;
      }
      trace := trace + [Sleep(RETRY_DELAY_MS)];
      attempt := attempt + 1;
    }
    var response := fetch(url, attempt);
    trace := trace + [Attempt(attempt)];
    if Accepts(FileContent, response) {
      r := Ok(response.body);
    } else {
      r := Err(FileRetryError(filePath));
    }
  }

  // ---------------------------------------------------------------------------
  // Workers binding
  // ---------------------------------------------------------------------------

  /** One object as `R2Bucket.list()` reports it. */
  datatype BindingObject = BindingObject(key: string, size: nat, uploaded: string)

  /** A bucket binding: what `list()` settles with, and the text of each stored object. */
  datatype Bucket = Bucket(listing: Result<seq<BindingObject>>, files: map<string, string>)

  /** The value an environment holds under a name: absent-like (falsy), some
      other truthy value, or a bucket. */
  datatype EnvValue = Falsy | Truthy | BucketValue(bucket: Bucket)

  /** A Workers environment: its bindings by name. */
  datatype Env = Env(bindings: map<string, EnvValue>)

  /** `env && env["vm-personal-r2"]`: the environment is given and its binding is truthy. */
  predicate HasBucketBinding(env: Option<Env>)
  {
    env.Some? && R2_BINDING in env.value.bindings && env.value.bindings[R2_BINDING] != Falsy
  }

  /** The bucket behind the binding, when there is one. */
  function BoundBucket(env: Option<Env>): Option<Bucket>
  {
    if env.Some? && R2_BINDING in env.value.bindings && env.value.bindings[R2_BINDING].BucketValue?
    then Some(env.value.bindings[R2_BINDING].bucket)
    else None
  }

  function BindingDocument(obj: BindingObject): R2Document
  {
    R2Document(obj.key, Num(obj.size), Parsed(obj.uploaded), ObjectUrl(obj.key))
  }

  /** `listDocumentsFromR2Binding`: every listed object becomes a document,
      one for one and in order, with its key, size and public address; any
      failure (no bucket, a rejected `list()`) becomes one error. */
  function ListDocumentsFromR2Binding(env: Option<Env>): (r: Result<seq<R2Document>>)
    ensures r.Ok? <==> BoundBucket(env).Some? && BoundBucket(env).value.listing.Ok?
    ensures r.Err? ==> r.error == LIST_BINDING_ERROR
    ensures r.Ok? ==>
      var objects := BoundBucket(env).value.listing.value;
      |r.value| == |objects| &&
      forall i :: 0 <= i < |r.value| ==>
        r.value[i].key == objects[i].key && r.value[i].size == Num(objects[i].size) &&
        r.value[i].url == ObjectUrl(objects[i].key)
  {
    match BoundBucket(env)
    case None => Err(LIST_BINDING_ERROR)
    case Some(bucket) =>
      match bucket.listing
      case Err(_) => Err(LIST_BINDING_ERROR)
      case Ok(objects) => Ok(seq(|objects|, i requires 0 <= i < |objects| => BindingDocument(objects[i])))
  }

  /** `getFileContentUsingR2Binding`: the stored text of the object (which may be
      empty); a missing object or a missing bucket becomes one error. */
  function GetFileContentUsingR2Binding(filePath: string, env: Option<Env>): (r: Result<string>)
    ensures r.Ok? <==> BoundBucket(env).Some? && filePath in BoundBucket(env).value.files
    ensures r.Ok? ==> r.value == BoundBucket(env).value.files[filePath]
    ensures r.Err? ==> r.error == FileBindingError(filePath)
  {
    match BoundBucket(env)
    case None => Err(FileBindingError(filePath))
    case Some(bucket) =>
      if filePath in bucket.files then Ok(bucket.files[filePath]) else Err(FileBindingError(filePath))
  }

  // ---------------------------------------------------------------------------
  // Dispatch
  // ---------------------------------------------------------------------------

  /** What `getDocumentsFromR2` settles with: the binding's listing when the
      environment has a truthy binding, the retrying S3 listing otherwise. */
  function DocumentsRead(env: Option<Env>, fetch: Fetch): Result<seq<R2Document>>
  {
    if HasBucketBinding(env) then ListDocumentsFromR2Binding(env) else ListingOutcome(fetch)
  }

  /** What `getFileFromR2` settles with, by the same choice of transport. */
  function FileRead(filePath: string, env: Option<Env>, fetch: Fetch): Result<string>
  {
    if HasBucketBinding(env) then GetFileContentUsingR2Binding(filePath, env) else FileOutcome(filePath, fetch)
  }

  /** `getDocumentsFromR2`: the binding when the environment has one, else the
      S3-compatible API (which alone makes attempts); either way every
      document carries its public address. */
  method GetDocumentsFromR2(env: Option<Env>, fetch: Fetch) returns (r: Result<seq<R2Document>>, trace: seq<Event>)
    ensures r == DocumentsRead(env, fetch)
    ensures trace == if HasBucketBinding(env) then [] else Trace(AttemptsMade(fetch, ListUrl(), Listing))
    ensures r.Ok? ==> forall d :: d in r.value ==> d.url == ObjectUrl(d.key)
  {
    if HasBucketBinding(env) {
      r, trace := ListDocumentsFromR2Binding(env), [];
    } else {
      r, trace := ListDocumentsFromR2(fetch);
      ListingUrls(fetch);
    }
  }

  lemma ListingUrls(fetch: Fetch)
    ensures ListingOutcome(fetch).Ok? ==> forall d :: d in ListingOutcome(fetch).value ==> d.url == ObjectUrl(d.key)
  {
    match FirstAccepted(fetch, ListUrl(), Listing, 1)
    case None =>
    case Some(k) => ListingBounds(fetch(ListUrl(), k).body);
  }

  /** `getFileFromR2`: the same choice of transport for reading one object. */
  method GetFileFromR2(filePath: string, env: Option<Env>, fetch: Fetch) returns (r: Result<string>, trace: seq<Event>)
    ensures r == FileRead(filePath, env, fetch)
    ensures trace == if HasBucketBinding(env) then [] else Trace(AttemptsMade(fetch, FileUrl(filePath), FileContent))
  {
    if HasBucketBinding(env) {
      r, trace := GetFileContentUsingR2Binding(filePath, env), [];
    } else {
      r, trace := GetFileContentUsingS3Api(filePath, fetch);
    }
  }
}
