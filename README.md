# vm-personal resource data layer, in Dafny

This project models the data layer of the vm-personal teaching website. That
layer has two parts.

- **src/lib/utils.ts** talks to the Cloudflare R2 bucket that holds the
  course material:
  - it lists the bucket, either through the S3-compatible `ListObjectsV2`
    API or through a Workers binding;
  - it parses the `ListBucketResult` XML with regular expressions;
  - it reads single files using the same two transports;
  - it makes at most five attempts at each S3 request, so at most four
    retries, waiting one second between attempts;
  - it turns a manifest file of YouTube URLs into a map of oEmbed metadata.
- **src/lib/data.ts** builds the catalog the pages show, using two
  module-level collections:
  - `resourceCategories`, one entry per grade-and-subject;
  - `materialPerCategory`, one materials page per grade-and-subject.

  It fills them once, when the module is loaded. Each listed key
  `gradesub/filename` becomes one document on the page of its `gradesub`.
  The grade and the subject are the second and third `-`-separated tokens
  of `gradesub`.

The modules follow those files:

| module | file | models | style |
|---|---|---|---|
| `Wrappers` | `wrappers.dfy` | `Option` and `Result` | |
| `JsStrings` | `jsstrings.dfy` | the JavaScript string operations the source relies on: `split`, `trim` (the JavaScript white-space set), ASCII `toUpperCase`/`toLowerCase`, and the lazy regular expressions `open(.*?)close` and `open([\s\S]*?)close` | |
| `R2Listing` | `listing.dfy` | `parseListObjectsXml` | the `exec` loop is a method, proved against the function `ListingDocuments` |
| `R2Access` | `access.dfy` | the retry loops, the binding variants, and the dispatch of `getDocumentsFromR2` and `getFileFromR2` | |
| `YouTube` | `youtube.dfy` | `createYoutubeOembedUrl`, and the line-splitting and map-filling loop of `getYoutubeVideosFromR2File` | |
| `ResourceTypes` | `types.dfy` | the records and the two string unions of src/types/index.ts | datatypes |
| `ResourceCatalog` | `catalog.dfy` | the rules of `populateAvailableResources` | a fold `Build` over the listing, one `Step` per key, with its invariant and lemmas |
| `ResourceStore` | `store.dfy` | the module state of data.ts | a class `Store` whose methods update the two collections in place, each proved equal to the fold |

The inputs of the model:

- **Transport and time:**
  - A signed S3 request becomes a `Fetch`. A `Fetch` is a function from a
    URL and an attempt number to an outcome: a response with its `ok` flag,
    status and text, or a thrown exception.
  - The retry methods return the trace of attempts and waits they perform.
  - The oEmbed lookup becomes an `OembedFetch`. An `OembedFetch` is a
    function from the request URL and the index of the non-blank line that
    makes the request to an outcome. Two lines with the same URL can so get
    different answers, as two network requests can.
  - The current time is a `now` string parameter.
- **Bindings:** a Workers environment is a map from binding names to
  values. A value is falsy, some other truthy value, or a bucket with its
  `list()` result and its stored files.

The model follows the code as written:

- a document key has two segments, `gradesub/filename`;
- src/types/index.ts:64-65 declares `MaterialContent.topic` and
  `gradeSubject` as required, but src/lib/data.ts:102-107 never sets them,
  so they are `None` in the model.

The S3 listing makes one `ListObjectsV2` request and reads only that
response. A truncated listing is not continued, in the source and in the
model.

## Model

| member | source | states |
|---|---|---|
| `JsStrings.Split` | src/lib/data.ts:78-79 | `split(c)` gives at least one part, no part contains `c`, and joining the parts with `c` gives back the input. |
| `JsStrings.SplitJoin` | src/lib/data.ts:89-90 | Splitting undoes joining when no part contains the separator. This is how a key's segments and a grade-and-subject's tokens are read back. |
| `JsStrings.Trim` | src/lib/utils.ts:251 | `trim()` is empty exactly when the input is all white space. Otherwise it starts and ends with a non-white-space character and sits in the input with only white space around it. |
| `JsStrings.MatchFromLeftmost` | src/lib/utils.ts:15-18 | The regular-expression search finds the leftmost position where a match can start, and finds none only when no position from the search start can match. |
| `JsStrings.LazyClose` | src/lib/utils.ts:15-27 | The lazy body `(.*?)close`, or `([\s\S]*?)close` with dot-all, run from a position: the first index where the closing tag occurs, giving up at the end of the text and, without dot-all, at a line terminator. A found index leaves room for the closing tag. |
| `JsStrings.MatchFrom` | src/lib/utils.ts:15-27 | The search for `open(.*?)close` from a position: the first start at or after it where the opening tag stands and the lazy body reaches a closing tag, with the index of that closing tag. |
| `JsStrings.LazyCloseFirst` | src/lib/utils.ts:22-24 | The lazy `(.*?)` body ends at the first closing tag. Without the dot-all flag the body holds no line terminator, and with it the search fails only when no closing tag follows. |
| `JsStrings.FirstCapture` | src/lib/utils.ts:22-27 | The non-global `match(/open(.*?)close/)?.[1]`: the text between the opening tag of the first match and its closing tag. |
| `JsStrings.FirstCaptureSpec` | src/lib/utils.ts:22-27 | `match(/<T>(.*?)<\/T>/)[1]` is text standing between an opening and a closing tag, with no line terminator and no closing tag inside it. There is no capture when no opening tag occurs. |
| `JsStrings.LazyCloseComplete` | src/lib/utils.ts:22-24 | When a closing tag follows on the same line, the lazy `(.*?)` body finds a closing tag. |
| `JsStrings.MatchesAtOneLine` | src/lib/utils.ts:22-24 | Without the dot-all flag, a match can start at a position exactly when an opening tag stands there and a closing tag follows it on the same line. |
| `JsStrings.ElementMatches` | src/lib/utils.ts:22-24 | An opening tag, a text with no line terminator and a closing tag, in a row, make a place where a match can start. |
| `JsStrings.FirstCaptureFound` | src/lib/utils.ts:22-26 | `match(/<T>(.*?)<\/T>/)` finds a capture exactly when an opening tag followed on the same line by a closing tag occurs somewhere. |
| `JsStrings.MatchFramed` | src/lib/utils.ts:22-27 | A match that starts at `i` frames its body between the opening tag at `i` and the closing tag that ends it. |
| `JsStrings.FirstMatchFramed` | src/lib/utils.ts:22-27 | When the search finds a match, the capture exists and stands framed by the two tags at the match's start. |
| `JsStrings.NoOneLineBefore` | src/lib/utils.ts:22-24 | No opening tag followed on the same line by a closing tag occurs before the first match. |
| `JsStrings.FirstCaptureLeftmost` | src/lib/utils.ts:22-27 | The capture sits, framed by the two tags, at the leftmost position where an opening tag is followed on the same line by a closing tag. |
| `JsStrings.ToUpper` | src/lib/data.ts:95 | The ASCII case mapping that models `toUpperCase` keeps the length of the text. |
| `JsStrings.ToLower` | src/lib/data.ts:111 | The ASCII case mapping that models `toLowerCase` keeps the length of the text. |
| `JsStrings.CaseMapping` | src/lib/data.ts:95-111 | Upper case shifts exactly the letters `a` to `z` down by 32 and leaves every other character; lower case shifts exactly `A` to `Z` up by 32. So upper case holds no ASCII lower-case letter and lower case no upper-case one. Each mapping is idempotent, and each gives the same result after the other as alone. |
| `JsStrings.DistinctSpec` | src/lib/utils.ts:263 | Keeping first insertions gives each element exactly once and invents none. These are the key order of a `Map` that is `set` repeatedly. |
| `R2Listing.ParseInt` | src/lib/utils.ts:28 | `parseInt` of a `<Size>` text: leading white space skipped, an optional sign, an optional `0x` prefix, then the longest run of digits; NaN without digits. |
| `R2Listing.ParseIntDecimal` | src/lib/utils.ts:28 | `parseInt` reads back the decimal text of every natural number. |
| `R2Listing.ParseIntDigits` | src/lib/utils.ts:28 | After any white space and an optional sign, decimal digits that do not begin a `0x` prefix give their value, negated after `-`, whatever text follows them. |
| `R2Listing.ParseIntHex` | src/lib/utils.ts:28 | After any white space and an optional sign, `0x` or `0X` and hexadecimal digits give the base-16 value of the digits, negated after `-`, whatever follows them. |
| `R2Listing.ParseIntNoDigits` | src/lib/utils.ts:28 | White space and an optional sign followed by no digit give NaN. |
| `R2Listing.ParseIntHexNoDigits` | src/lib/utils.ts:28 | White space, an optional sign and a `0x` or `0X` prefix followed by no hexadecimal digit give NaN. |
| `R2Listing.NextContents` | src/lib/utils.ts:15-18 | One `exec` call with the global flag: when it matches, `lastIndex` moves forward and stays within the text. |
| `R2Listing.ContentsBlockDelimited` | src/lib/utils.ts:15-19 | Each `exec` block is the text between a `<Contents>` at or after `lastIndex` and the first `</Contents>` after it. `lastIndex` moves just past that closing tag. |
| `R2Listing.Blocks` | src/lib/utils.ts:18-19 | The blocks that repeated `exec` calls capture from a `lastIndex` on, in order, until `exec` returns `null`. |
| `R2Listing.ContentsScanEnd` | src/lib/utils.ts:18 | The `exec` loop ends only when no `<Contents>` from `lastIndex` on is ever closed. |
| `R2Listing.BlockDocument` | src/lib/utils.ts:22-36 | One `<Contents>` block becomes a document when its `<Key>` matches, with the size of its `<Size>` text and the time of its `<LastModified>` text. |
| `R2Listing.BlockKeyFound` | src/lib/utils.ts:22-27 | A block yields a document exactly when it holds a `<Key>` with a `</Key>` after it on the same line. The key is then the text framed by `<Key>` and `</Key>` at the leftmost such place. |
| `R2Listing.KeyElementYields` | src/lib/utils.ts:22-26 | Every block that holds `<Key>t</Key>` with `t` on one line yields a document. |
| `R2Listing.BlockDocumentFields` | src/lib/utils.ts:22-36 | A block yields a document exactly when the `<Key>` capture exists. The key holds no line terminator and no `</Key>`. The URL is the public address of the key. A missing `<Size>` gives size 0, and a missing `<LastModified>` gives the current time. |
| `R2Listing.DocumentsOfKeyedBlocks` | src/lib/utils.ts:18-37 | There is exactly one document per block that has a key, in block order. The documents are the keyed blocks' documents at increasing block indices, and every keyed block is among them. |
| `R2Listing.ListingBounds` | src/lib/utils.ts:18-40 | There are at most as many documents as `<Contents>` blocks. Every document's URL is `https://vm-personal-website.r2.cloudflarestorage.com/` followed by its key. |
| `R2Listing.ObjectUrl` | src/lib/utils.ts:35 | The public address of a key: `https://vm-personal-website.r2.cloudflarestorage.com/` followed by the key. |
| `R2Listing.ListingDocuments` | src/lib/utils.ts:18-40 | What `parseListObjectsXml` returns: the documents of the keyed blocks, in block order. |
| `R2Listing.ParseListObjectsXml` | src/lib/utils.ts:11-41 | The `exec` loop returns exactly `ListingDocuments` of the text, with the documents in block order. |
| `R2Access.ListUrl` | src/lib/utils.ts:63 | The `ListObjectsV2` request for the whole bucket. |
| `R2Access.FileUrl` | src/lib/utils.ts:136 | The `GetObject` request for one object. |
| `R2Access.Accepts` | src/lib/utils.ts:139-148 | An attempt succeeds when the response is `ok`; a file read also rejects an empty body. A thrown transport error fails the attempt. The listing's test, at src/lib/utils.ts:66-74, is the same without the body check. |
| `R2Access.FirstAccepted` | src/lib/utils.ts:59-74 | The attempt a run settles on: the first accepted attempt numbered from the start on, which lies within the five-attempt budget. The file loop at src/lib/utils.ts:133-148 settles the same way. |
| `R2Access.FirstAcceptedFirst` | src/lib/utils.ts:59-74 | The retry settles on the earliest accepted attempt. "None" means every attempt up to `MAX_RETRIES` failed. |
| `R2Access.SleptShape` | src/lib/utils.ts:76-79 | The first `k` failed attempts with their waits alternate attempt 1, a 1000 ms wait, attempt 2, and so on: `2k` events, attempt `i/2 + 1` at even `i` and a wait at odd `i`. |
| `R2Access.Trace` | src/lib/utils.ts:59-79 | A run of `k` attempts: a 1000 ms wait after every attempt but the last. |
| `R2Access.TraceShape` | src/lib/utils.ts:76-79 | A run of `k` attempts alternates attempts 1 to `k` with 1000 ms waits, and ends on attempt `k`. It never waits after the last attempt. |
| `R2Access.AttemptsBound` | src/lib/utils.ts:59 | A run makes 1 to 5 attempts, and every attempt before the last one failed. |
| `R2Access.ListingOutcomeSpec` | src/lib/utils.ts:59-83 | The listing succeeds exactly when one of the five attempts gets an `ok` response. It returns the parsed documents of the first such response. Otherwise it fails with "Failed to list R2 documents after retries." |
| `R2Access.FileOutcomeSpec` | src/lib/utils.ts:133-157 | A file read succeeds exactly when one of the five attempts gets an `ok` response with a non-empty body, so an empty body counts as a failed attempt. It returns that body. Otherwise it fails with "Failed to get file P after retries." |
| `R2Access.ListingOutcome` | src/lib/utils.ts:59-83 | The value `listDocumentsFromR2` settles with: the parsed documents of the first `ok` response, or the retry error. |
| `R2Access.FileOutcome` | src/lib/utils.ts:133-157 | The value `getFileContentUsingS3Api` settles with: the body of the first `ok` response with a non-empty body, or the retry error. |
| `R2Access.ListDocumentsFromR2` | src/lib/utils.ts:59-83 | The counted loop returns `ListingOutcome`. Its trace is `Trace` of the number of attempts made. |
| `R2Access.GetFileContentUsingS3Api` | src/lib/utils.ts:133-157 | The counted loop returns `FileOutcome`. Its trace is `Trace` of the number of attempts made. |
| `R2Access.ListingUrls` | src/lib/utils.ts:73-74 | Every document of a successful S3 listing carries the public address of its key, the URL `parseListObjectsXml` builds at src/lib/utils.ts:35. |
| `R2Access.HasBucketBinding` | src/lib/utils.ts:112 | `env && env["vm-personal-r2"]`: the environment is given and its binding is truthy. The same test chooses the transport at src/lib/utils.ts:182. |
| `R2Access.BoundBucket` | src/lib/utils.ts:91 | The bucket behind `env["vm-personal-r2"]`, when the environment has one there. The file read takes it the same way at src/lib/utils.ts:165. |
| `R2Access.BindingDocument` | src/lib/utils.ts:94-99 | An object listed by the binding becomes a document with its key, its size, its upload time and the public address of its key. |
| `R2Access.ListDocumentsFromR2Binding` | src/lib/utils.ts:89-104 | The binding listing maps the objects one for one and in order, keeping key and size and giving the public URL. It succeeds exactly when the binding is a bucket whose `list()` succeeds. Otherwise it fails with "Failed to list R2 documents using binding." |
| `R2Access.GetFileContentUsingR2Binding` | src/lib/utils.ts:163-177 | The binding read returns the stored text, possibly empty, exactly when the bucket holds the path. Otherwise it fails with "Failed to get file P using binding." |
| `R2Access.GetDocumentsFromR2` | src/lib/utils.ts:110-118 | The binding is used exactly when the environment is given and its `vm-personal-r2` entry is truthy, and then no S3 attempt is made. Otherwise the retrying listing is used. Either way every document carries its public URL. |
| `R2Access.DocumentsRead` | src/lib/utils.ts:110-118 | The value `getDocumentsFromR2` settles with: the binding listing when the binding is truthy, the retrying listing otherwise. |
| `R2Access.FileRead` | src/lib/utils.ts:180-188 | The value `getFileFromR2` settles with: the binding read when the environment is given and its `vm-personal-r2` entry is truthy, and the retrying S3 read `FileOutcome` otherwise. |
| `R2Access.GetFileFromR2` | src/lib/utils.ts:180-188 | Reading one file uses the same choice of transport as the listing. |
| `YouTube.CreateYoutubeOembedUrl` | src/lib/utils.ts:195-197 | The request is longer than the URL by exactly the prefix and the suffix. |
| `YouTube.OembedRoundTrip` | src/lib/utils.ts:195-197 | The `url` parameter of the request gives back the inserted YouTube URL, unencoded. A request has target `u` exactly when it is the request built from `u`. |
| `YouTube.ManifestKeysAreLines` | src/lib/utils.ts:251-263 | The keys the loop stores are exactly the trimmed, non-blank lines of the file. |
| `YouTube.NonBlankLines` | src/lib/utils.ts:251 | The lines of the file cut at every line feed, keeping in file order those that are not all white space. |
| `YouTube.MapSet` | src/lib/utils.ts:263 | `Map.set` stores the value under the key. An existing key keeps its place in the order, and a new key goes last. |
| `YouTube.ManifestOutcome` | src/lib/utils.ts:245-272 | The value `getYoutubeVideosFromR2File` settles with: "Failed to process YouTube videos from file P" when the file read fails or any line's request fails, and otherwise the map that one `set` per trimmed non-empty line builds. |
| `YouTube.ManifestOutcomeSpec` | src/lib/utils.ts:245-272 | The call succeeds exactly when the file is read and the request made for the trimmed `i`-th non-blank line succeeds, for every `i`. One failure gives "Failed to process YouTube videos from file P" and no partial map. |
| `YouTube.ManifestMapKeys` | src/lib/utils.ts:251-264 | The map's keys are the distinct trimmed non-blank lines. Each appears once in the map's order, and the order and the entries hold the same keys. A repeated line gives one entry. |
| `YouTube.ManifestMapValues` | src/lib/utils.ts:259-263 | Every key is non-empty with no white space at either end. It maps to the answer to the request made for the last non-blank line with that key, since a later `set` overwrites an earlier one. |
| `YouTube.GetYoutubeVideosFromR2File` | src/lib/utils.ts:245-272 | The reading and map-filling loop returns exactly `ManifestOutcome` of the file read. |
| `YouTube.Resolves` | src/lib/utils.ts:258-265 | Every request the loop makes succeeds: the one for each non-empty key, made with that line's index. |
| `YouTube.ResolvedMap` | src/lib/utils.ts:258-265 | The map the loop builds when every request succeeds: one `Map.set` per non-empty key, in line order, with that line's answer. |
| `YouTube.ResolvedMapKeys` | src/lib/utils.ts:253-263 | Over any key list whose requests succeed, the map's order is the distinct non-empty keys in order of first appearance, and its entries hold exactly the non-empty keys. |
| `YouTube.ResolvedMapValues` | src/lib/utils.ts:253-263 | Each stored key is non-empty and holds the answer to the request made at the last index where that key occurs. |
| `YouTube.ResolvedMapStep` | src/lib/utils.ts:253-264 | One more line extends the map by one `Map.set` of its key and its answer, or leaves it unchanged when the key is empty. |
| `ResourceCatalog.WellFormedKey` | src/lib/data.ts:78-82 | A key is used only when `split('/')` gives exactly two parts. |
| `ResourceCatalog.Grade` | src/lib/data.ts:90 | The grade is token 1 of `gradesub.split('-')`. |
| `ResourceCatalog.Subject` | src/lib/data.ts:90 | The subject is token 2 of `gradesub.split('-')`. |
| `ResourceCatalog.RawExtension` | src/lib/data.ts:111 | `split('.').pop()`: the text after the last `.`, which holds no `.`. |
| `ResourceCatalog.FileExtension` | src/lib/data.ts:111 | The extension is the lower-cased text after the last `.` of the file name, or the whole name when it has no dot. |
| `ResourceCatalog.CategoryFor` | src/lib/data.ts:93-98 | The index entry pushed for a new grade-and-subject: its `gradesub`, title, description and slug. |
| `ResourceCatalog.HeaderFor` | src/lib/data.ts:102-107 | The empty page set for a new grade-and-subject: title, description, no videos and no documents. |
| `ResourceCatalog.DocumentFor` | src/lib/data.ts:117-125 | The document pushed for a listed object with a two-segment key. |
| `ResourceCatalog.HasCategory` | src/lib/data.ts:92 | `resourceCategories.some(category => category.gradesub === gradesub)`. |
| `ResourceCatalog.Throws` | src/lib/data.ts:89-108 | A step throws when the category or the page of its grade-and-subject must be built and `gradesub.split('-')` has fewer than three tokens, so `grade.toUpperCase()` is called on `undefined`. |
| `ResourceCatalog.AddCategory` | src/lib/data.ts:92-99 | The category push, done only for a grade-and-subject not yet listed. |
| `ResourceCatalog.AddHeader` | src/lib/data.ts:101-108 | The `materialPerCategory.set` of an empty page, done only for a grade-and-subject without a page. |
| `ResourceCatalog.AppendDocument` | src/lib/data.ts:110-125 | The document pushed onto the document list of the page of its grade-and-subject. |
| `ResourceCatalog.AddKeepsValid` | src/lib/data.ts:92-108 | Adding the category and the page of one grade-and-subject keeps the invariant, and the page then exists. |
| `ResourceCatalog.Step` | src/lib/data.ts:78-125 | One pass of the loop: skip a key without two segments, throw on a new grade-and-subject with too few tokens, else add the category, the page and the document. |
| `ResourceCatalog.Build` | src/lib/data.ts:77-129 | The loop: the steps in listing order, stopping at the first that throws and keeping what the earlier steps did. |
| `ResourceCatalog.Populate` | src/lib/data.ts:68-134 | `populateAvailableResources`: a failed listing is rethrown, an empty listing changes nothing, any other is walked by the loop. |
| `ResourceCatalog.Lookup` | src/lib/data.ts:141-142 | `getMaterialContent`: the page stored under `gradeSlug-subjectSlug`, or none. |
| `ResourceCatalog.Classify` | src/lib/data.ts:111-116 | Only `pdf`, `doc`, `docx` and `txt` get a specific type, and that type is the extension itself. Anything else is (File, file). The icon is FileText for pdf and txt, FileArchive for doc and docx, and File otherwise. |
| `ResourceCatalog.ExtensionSpec` | src/lib/data.ts:111 | The extension is the whole file name when there is no dot. Otherwise the name ends with a dot and the extension. |
| `ResourceCatalog.StepThrows` | src/lib/data.ts:89-108 | A key throws exactly when it has two segments and its grade-and-subject is new and has fewer than three `-`-tokens. |
| `ResourceCatalog.StepKeepsValid` | src/lib/data.ts:92-125 | A step that succeeds keeps the invariant: categories are unique by `gradesub`, and pages exist for exactly the grade-and-subjects that have a category. |
| `ResourceCatalog.BuildValid` | src/lib/data.ts:77-129 | The loop keeps that invariant, whether or not it throws. |
| `ResourceCatalog.BuildMaterials` | src/lib/data.ts:77-129 | After a loop that does not throw, pages exist for exactly the old and the new grade-and-subjects. Each page is its old page, or a new empty header, followed by the documents of its keys in listing order. A key with a bad segment count adds nothing, and a repeated grade-and-subject leaves the page header unchanged. |
| `ResourceCatalog.BuildCategories` | src/lib/data.ts:92-99 | After a loop that does not throw, the categories are the old ones followed by one per new grade-and-subject, in order of first appearance. |
| `ResourceCatalog.BuildSticky` | src/lib/data.ts:77-133 | Once the loop has thrown, the objects after it are never looked at: the state and the exception stay those of the throw. |
| `ResourceCatalog.BuildErrorIff` | src/lib/data.ts:90-95 | The loop throws exactly when some key has two segments and its grade-and-subject is new and has fewer than three tokens. |
| `ResourceCatalog.BuildErrorStop` | src/lib/data.ts:90-95 | When the loop throws, it stops at the first such key with the `toUpperCase`-of-undefined `TypeError`. Everything the earlier keys added stays. |
| `ResourceCatalog.PopulateSpec` | src/lib/data.ts:68-134 | `populateAvailableResources` keeps the invariant. A failed listing is rethrown and changes nothing, and an empty listing changes nothing. Otherwise the only exception is the missing-token one. |
| `ResourceCatalog.GradesubsMembers` | src/lib/data.ts:78-89 | The grade-and-subjects added are exactly those of the keys with two segments. |
| `ResourceCatalog.DocumentsUnderMembers` | src/lib/data.ts:117-125 | A page holds the document of every key with two segments under it, and nothing else. |
| `ResourceCatalog.PageDocuments` | src/lib/data.ts:117-125 | The document of each key has `id` equal to the key, which is the `gradesub`, a `/` and the `title`. Its `downloadUrl` is the listed URL, its upload date is `now`, and its size is "Unknown". |
| `ResourceCatalog.KeyParts` | src/lib/data.ts:78-89 | A two-segment key is its grade-and-subject and its file name joined by its only `/`. |
| `ResourceCatalog.KeyOf` | src/lib/data.ts:78-89 | Every grade-and-subject and file name without `/` make a two-segment key that splits back into them. |
| `ResourceCatalog.LookupAfterBuild` | src/lib/data.ts:138-143 | Take a load from empty that did not throw. `getMaterialContent(g, s)` finds a page exactly when some key with two segments has grade-and-subject `g-s`. That page has no videos and holds the empty header followed by the documents of those keys. |
| `ResourceCatalog.CategoryTokens` | src/lib/data.ts:90-98 | For `gradesub` `t-G-S-…`, the grade is G and the subject is S, whatever `t` is and however many tokens follow. The title is "Class " + upper(G) + " &#124; " + upper(S), and the slug is "class-" + G + "/" + S. |
| `ResourceCatalog.SlugKey` | src/lib/data.ts:97 | The slug `class-G/S` leads to the lookup key `class-G-S`. That key is the category's own key exactly when the first token is `class` and no token follows the subject. |
| `ResourceCatalog.StepCount` | src/lib/data.ts:117-125 | A successful step adds one document to the index for a key with two segments, and none for a skipped key. |
| `ResourceCatalog.BuildCount` | src/lib/data.ts:77-129 | A loop that does not throw adds one document to the index per key with two segments. From empty, the index lists as many documents as there are such keys. |
| `ResourceStore.Store.constructor` | src/lib/data.ts:56-66 | Loading the module populates both collections from empty, drops any exception, and leaves the invariant holding. |
| `ResourceStore.Store.PopulateAvailableResources` | src/lib/data.ts:68-134 | The walk of the listing updates both collections in place. The new state and the exception reported are exactly `Populate` of the old state and the listing `getDocumentsFromR2` returns with no environment. |
| `ResourceStore.Store.AddResource` | src/lib/data.ts:78-125 | One pass of the loop leaves exactly the state of `Step`. An exception is thrown before anything changes. |
| `ResourceStore.Store.GetMaterialContent` | src/lib/data.ts:138-143 | The page stored under `gradeSlug-subjectSlug` is returned when there is one, and nothing otherwise. |
| `ResourceStore.Store.GetResourceCategories` | src/lib/data.ts:150-154 | The index is returned as it is stored. |
| `ResourceStore.BuildStops` | src/lib/data.ts:130-133 | A key that throws after the earlier keys did not ends the loop with the state reached so far. |

## Left out

- The network:
  - `AwsClient` construction, request signing and `client.fetch` are foreign calls. They are modelled only as the outcomes a `Fetch` gives.
  - `fetch` to the oEmbed endpoint and `response.json()` are foreign calls, modelled as the `OembedFetch` parameter. Its answer depends only on the URL and the line index; a dependence on anything else, such as the time of the request, is not modelled.
  - Environment variables are not modelled.
- `fetchYoutubeOembedData` is not modelled beyond its result: its HTTP status check and its error message are swallowed by the manifest's own error.
- Time:
  - `setTimeout` becomes a `Sleep(1000)` event in the trace.
  - `new Date()` is the `now` parameter or `CurrentTime`.
  - `ResourceCatalog.DocumentFor`: every document of one load gets the same `now`. The source reads the clock once per document (src/lib/data.ts:123), so its upload times can differ by the time the loop takes.
  - Parsing a `LastModified` text into a `Date` is not modelled. The text is kept as it is.
- Output: `console.log`, `warn` and `error` do not change any state.
- Asynchrony:
  - The `initializationPromise` that other calls await is modelled as the `Store` constructor running to completion before any read.
  - Concurrent callers are not modelled.
- Aliasing: the model returns values where the source returns live objects.
  - `getResourceCategories` returns the live `resourceCategories` array.
  - `getMaterialContent` returns the live page object, the one whose `documents` array the loop pushes onto in place (src/lib/data.ts:110, 117, 142).
  - Callers could mutate either, and the change would show in later reads. The model does not capture that.
- `R2Listing.ParseInt`:
  - It models `parseInt` on the texts a `<Size>` can hold: integers, with a sign and a `0x` prefix.
  - The 53-bit precision of JavaScript numbers is not modelled.
  - Number forms of other `parseInt` radixes are not modelled.
- `JsStrings.ToUpper`, `JsStrings.ToLower`: change the case of ASCII letters only. Full Unicode case mapping is not modelled.
- `R2Access.GetFileContentUsingR2Binding`: does not model a failure of `object.text()` on an object that exists. Only a missing bucket or object fails.
- Unreachable code:
  - `return []` after the listing loop (src/lib/utils.ts:85) cannot be reached.
  - The final `throw` after the file loop (src/lib/utils.ts:159) cannot be reached.
  - The model's loops are written so that neither exists.
- Out of scope:
  - `getTeacherProfile` and the `teacherProfile` record are constant data.
  - `cn` is a styling helper.
  - The React pages and components only render.
  - `scripts/generate-static-data.ts`, a build script, is not part of this model.
