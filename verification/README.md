# Omegaloops frontend: marketplace queries, pinning uploads and the drop handler

This project models, in Dafny, the three pieces of decision logic in the
Omegaloops web frontend (a marketplace where musicians tokenize and sell
audio samples), with the ledger, the pinning service and the browser
abstracted into parameters:

- **Marketplace** (`frontend/src/app/marketplace/page.tsx`): the join of the
  ledger's `SampleCreated` events with the per-sample `getOneSample` reads,
  the case-insensitive search, the category filter, the distinct category
  list, the media-type guess and the "has media" test.
- **Ipfs** (`frontend/src/services/ipfs.ts`): the credential gate, the
  authentication-header precedence, the progress events and result of
  `uploadFile`, `testConnection`, and `getFileUrl`. An upload is a pure
  function from credentials, the file, the clock reading and the outcome of
  the one `fetch` to the progress trace, the request sent and the result.
  A reference life cycle (`Phase`, `Step`, `Run`) states which progress
  traces are well formed; the upload is proved to produce only such traces.
- **Dropzone** (`frontend/src/components/ui/file-dropzone.tsx`): the size
  and type constants and `onDrop`'s dispatch over the accepted and rejected
  files the drop-zone library reports, with toasts as a returned value.

Supporting modules: `Optional` (the `T | null` shape), `Text` (JavaScript
truthiness, ASCII `toLowerCase`, `includes` proved against a substring
definition, `trim` proved against a whitespace-cut definition, integer
`toString` with a decimal round trip), `Seqs` (`filter` and
`Array.from(new Set(...))`, each characterised by exactly which input
positions it keeps), `Files` (the browser `File` record).

Some members are plain definitions with no contract of their own; the
contracts that use them state their behaviour. `Ipfs.Configured` is the
credential gate (`ipfs.ts:36`), stated by `Ipfs.UploadFile`,
`Ipfs.TestConnection` and `Ipfs.SelectHeaders`. `Ipfs.CaughtMessage` is the
catch block's message (`ipfs.ts:130`), stated by `Ipfs.TransportFailureTrace`.
`Marketplace.MatchesCategory` is the category test (`page.tsx:78`), stated by
`Marketplace.NoCategoryIsSearchOnly` and `Marketplace.CategoryKeepsExactMatches`.
`Dropzone.Toast.Message` is the toast text of each outcome
(`file-dropzone.tsx:40-52`); `Dropzone.Classify` and `Dropzone.OnDrop` state
which outcome a drop has.

Behaviour of the code that the model keeps as written:

- The selected category is used as a JavaScript truth value
  (`page.tsx:78`), so an empty category string filters nothing, exactly as
  no selection does.
- Upload progress is not monotone over the whole trace: the error event
  resets the bar to 0 after 25 or 90 (`ipfs.ts:122-126`). The life cycle
  allows exactly that: strictly rising uploading events, then one
  completion at 100 or one error at 0.
- A failed detail read makes `Promise.all` reject; the rejection is not
  handled, and the list keeps its initial empty value (`page.tsx:38, 51-70`).
  `LoadSamples` models that empty list, so loading is all-or-nothing and no
  error state is shown.
- Size and type rejection happen inside the drop-zone library; `onDrop`
  only turns the first error code the library reports into a message
  (`file-dropzone.tsx:37-46`).
- A successful response whose body is not JSON fails the upload with the
  parse error's message (`ipfs.ts:101, 127-131`), as
  `Ipfs.UnparseableBodyTrace` states.

## Model

| member | source | states |
|---|---|---|
| Text.Includes | frontend/src/app/marketplace/page.tsx:74-76 | `includes` is true exactly when the needle occurs as a contiguous piece of the string (the empty needle occurs everywhere) |
| Text.Trim | frontend/src/app/marketplace/page.tsx:101 | `trim` cuts only leading and trailing JavaScript whitespace, leaves non-whitespace at both ends, and is empty exactly when the string is all whitespace |
| Text.Lower | frontend/src/app/marketplace/page.tsx:74-76 | lowering keeps the length, moves every upper-case ASCII letter to its lower-case partner, keeps every other character and leaves no upper-case ASCII letter |
| Text.NatToDecimal | frontend/src/services/ipfs.ts:60 | a size or status renders as decimal digits with no leading zero except for 0 itself, which renders as "0"; a single digit exactly for numbers below 10 |
| Text.DecimalRoundTrip | frontend/src/services/ipfs.ts:60 | the rendered digits read back as the same number |
| Marketplace.JoinDetails | frontend/src/app/marketplace/page.tsx:51-63 | the joined list exists exactly when every detail read succeeds; it then has one sample per event, in event order, each holding that event and its id's detail read |
| Marketplace.LoadSamples | frontend/src/app/marketplace/page.tsx:43-70 | after the mount-time load the list is empty if the event query or any read rejected, and otherwise is the full join in event order |
| Marketplace.FailedReadListsNothing | frontend/src/app/marketplace/page.tsx:51-65 | with events 1, 2, 3 and a failing read of 2, neither 1 nor 3 is listed |
| Marketplace.MatchesSearch | frontend/src/app/marketplace/page.tsx:73-76 | a sample passes the search iff the lowered query occurs in its lowered title, artist or description |
| Marketplace.FilteredSamples | frontend/src/app/marketplace/page.tsx:72-81 | the filtered list is an order-preserving subsequence of the samples that keeps exactly the positions passing both the search and the category test |
| Marketplace.EmptyQueryListsAll | frontend/src/app/marketplace/page.tsx:72-81 | an empty query with no category returns the sample list unchanged |
| Marketplace.SearchIgnoresCase | frontend/src/app/marketplace/page.tsx:74-76 | two queries that differ only in letter case give the same filtered list |
| Marketplace.NoCategoryIsSearchOnly | frontend/src/app/marketplace/page.tsx:78 | a missing or empty category selection imposes no constraint |
| Marketplace.CategoryKeepsExactMatches | frontend/src/app/marketplace/page.tsx:72-81 | for any query, a non-empty selected category gives the search filter restricted to samples whose category equals it, case-sensitively; with an empty query, exactly the samples of that category |
| Marketplace.SearchAndCategoryCommute | frontend/src/app/marketplace/page.tsx:72-81 | search then category and category then search both equal the combined filter |
| Marketplace.Categories | frontend/src/app/marketplace/page.tsx:83 | the category list has no duplicates, holds every sample's category and only categories some sample has, and is empty for no samples |
| Marketplace.CategoriesInFirstAppearanceOrder | frontend/src/app/marketplace/page.tsx:83 | the category list is the first appearance of each category, in sample order |
| Marketplace.GetFileType | frontend/src/app/marketplace/page.tsx:86-98 | the guess is audio/mpeg iff the lowered category contains audio, music or sound, and video/mp4 otherwise |
| Marketplace.HasMediaFile | frontend/src/app/marketplace/page.tsx:100-102 | a sample has media iff its content hash contains a non-whitespace character |
| Marketplace.MixedCaseQueryFindsTitle | frontend/src/app/marketplace/page.tsx:73-76 | the query "JaZz" matches the title "Jazz Loop" |
| Marketplace.HouseFilterScenario | frontend/src/app/marketplace/page.tsx:78 | selecting "House" among a Jungle and a House sample lists only the House sample |
| Ipfs.SelectHeaders | frontend/src/services/ipfs.ts:74-80 | a JWT yields only the Bearer Authorization header; without one, a key and secret yield exactly the two key headers; no header name repeats; no headers exactly when the credentials are missing |
| Ipfs.Metadata | frontend/src/services/ipfs.ts:56-64 | the metadata carries the file's name and MIME type, the upload time, and a digit string for the size that reads back as the size |
| Ipfs.AllowedTraceShape | frontend/src/services/ipfs.ts:104-131 | in any trace the upload life cycle allows, completion or error is the last event, progress stays within 0..100 and uploading progress strictly rises; terminal phases accept nothing more |
| Ipfs.UploadTracesAllowed | frontend/src/services/ipfs.ts:45-126 | the three traces an upload can emit are allowed, the success one ending finished and the others failed |
| Ipfs.UploadFile | frontend/src/services/ipfs.ts:32-133 | success iff credentials are set and an OK response names a non-empty hash, which is returned; every failure carries an error and no hash; the trace is an allowed life cycle ending as the result says; without credentials nothing is sent or reported; otherwise one POST with the selected headers and the file's metadata |
| Ipfs.SuccessTrace | frontend/src/services/ipfs.ts:45-114 | a success reports exactly 0, 25, 90 uploading then 100 completed |
| Ipfs.RejectedStatusTrace | frontend/src/services/ipfs.ts:89-131 | a non-OK status reports 0, 25, 90 then the 0 error event and fails with "Upload failed: status - body" |
| Ipfs.RejectedStatusReadsBack | frontend/src/services/ipfs.ts:96-98 | the digits after "Upload failed: " in that message read back as the response status |
| Ipfs.UnparseableBodyTrace | frontend/src/services/ipfs.ts:101-131 | an OK response whose body is not JSON fails with the parse error's message after 0, 25, 90 and the error event |
| Ipfs.MissingHashTrace | frontend/src/services/ipfs.ts:101-117 | an OK response without a hash fails with "No IPFS hash returned from Pinata" after 0, 25, 90 and the error event |
| Ipfs.TransportFailureTrace | frontend/src/services/ipfs.ts:83-131 | a fetch that throws reports 0, 25 then the error event and fails with the thrown error's message, or "Unknown upload error" for a non-Error value |
| Ipfs.OutcomeEvents | frontend/src/services/ipfs.ts:104-131 | every failure after the gate ends with its single error event preceded only by uploading events; a completed event occurs only as the last event of a success |
| Ipfs.TestConnection | frontend/src/services/ipfs.ts:139-164 | the test is false without credentials and sends nothing; otherwise one GET with the selected headers, true iff the response status is OK |
| Ipfs.SameHeadersForUploadAndTest | frontend/src/services/ipfs.ts:146-152 | the connection test authenticates with the same headers as the upload |
| Ipfs.GetFileUrl | frontend/src/services/ipfs.ts:135-137 | the URL starts with the gateway prefix and the rest of it is exactly the hash |
| Ipfs.GatewayUrlRoundTrip | frontend/src/services/ipfs.ts:135-137 | the hash read back from a gateway URL is the one it was built from, and a URL read back as a hash is rebuilt exactly |
| Dropzone.FileLimits | frontend/src/components/ui/file-dropzone.tsx:18-23 | the size limit is 104857600 bytes; the accepted types are exactly audio/mpeg, audio/mp3 and video/mp4, with one extension each, .mp4 only for video/mp4 |
| Dropzone.Classify | frontend/src/components/ui/file-dropzone.tsx:38-45 | file-too-large gives the too-large message, file-invalid-type the invalid-type message, any other code the generic failure message |
| Dropzone.OnDrop | frontend/src/components/ui/file-dropzone.tsx:34-54 | a rejection wins and selects nothing; a file is selected iff nothing was rejected and something was accepted, and it is the first accepted file with its success toast; an empty drop is silent; a rejection without errors makes the handler throw |
| Dropzone.OnlyFirstErrorMatters | frontend/src/components/ui/file-dropzone.tsx:37-46 | drops whose first rejection starts with the same error code have the same outcome, whatever else they contain |
| Dropzone.RejectionOverridesAcceptance | frontend/src/components/ui/file-dropzone.tsx:37-47 | an accepted file beside a too-large rejection is not selected and the too-large toast is shown |

## Left out

- The ledger and network calls (`getLogs`, `readContract`, both `fetch`es): their outcomes are parameters (an optional event sequence, a detail lookup per id, a transport outcome, a probe outcome).
- Environment-variable reads, the module singleton and `console` output: credentials are a record passed in; logging has no effect on results.
- The upload metadata timestamp: `uploadedAt` is a parameter instead of a clock read.
- Text.Lower: lowers ASCII letters only; JavaScript's full Unicode case mapping is not modelled, so search and the media-type guess agree with the code on ASCII text only.
- Text: strings are sequences of Unicode scalar values; a JavaScript string holding an unpaired UTF-16 surrogate has no counterpart, so `includes`, `trim` and equality are modelled on well-formed strings only.
- Ipfs.UploadFile: the body's `IpfsHash` is modelled as absent or a string; a non-string truthy value, a JSON `null` body (which makes the field read throw), a rejected `response.text()` and an `onProgress` callback that throws are not modelled. The trace is what a supplied callback receives; with no callback nothing is observed.
- Marketplace.JoinDetails: a rejection is modelled as no result; which read rejects first, and timing, are not modelled.
- Ledger integers (`uint256` ids, copies, prices) are unbounded naturals; the 2^256 bound is not modelled.
- `formatFileSize`: floating-point logarithms and rounding.
- The media player component: DOM media events and floating-point time arithmetic.
- The drop-zone library's own type and size enforcement and its drag state (`setIsDragOver`): only `onDrop`'s dispatch over the library's output is modelled.
- Cancellation of an upload in flight: the code has none.
- Page markup, navigation, the category list data and the submission forms: presentation only, with no logic the listed components use.
