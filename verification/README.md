# Resource discovery for Architect stacks, in Dafny

This project models the decision logic of `disco-up`, the custom resource
that runs after an Architect stack deploys. It lists the stack's resources,
classifies each one by its CloudFormation logical ID, and stores the result
as a resource map. The map is keyed by the stack's UUID.

Three pure components are modelled.

- **The classifier** (`ArcNameMapper`, in `arc_name_mapper.dfy`). It matches
  a logical ID against seven case-sensitive suffixes in a fixed order:
  `EventLambda`, `Topic`, `HTTPLambda`, `Table`, `Queue`, `Websocket`,
  `Scheduled`. The result is a pragma (`events`, `http`, `tables`, `queues`,
  `ws`, `scheduled`) and an arc name, which is the lower-cased prefix. An ID
  matching none of the suffixes goes to `plugins` under the ID itself. An
  HTTP route part such as `GetApiUsers` becomes `get /api/users`: the leading
  method is lower-cased, and a slash goes before every capital of the rest.
  The model follows the source's regular-expression replacement character by
  character. A word-level reference (`Segments`) is proved equal to it.
- **The organizer** (`PragmaOrganizer`, in `pragma_organizer.dfy`). It starts
  from seven empty sections. It then folds over the resources left to right,
  storing each physical ID under its arc name in its pragma's section. Last
  write wins.
- **The stack-ID extractor** (`StackIdExtractor`, in
  `stack_id_extractor.dfy`). It returns the text after the last `/` of the
  stack ARN, or the fallback key `resources`. The same module has the blob
  key `<stackId>/resources.json` built from that key.

`text.dfy` holds the string operations these components take from the
JavaScript runtime: ASCII lower-casing, `endsWith`, `startsWith`, and
`split` on one character, with its round trip through `join`. `wrappers.dfy`
holds `Option`.

## Model

| member | source | states |
|---|---|---|
| Text.Lower | disco-up/arc-name-mapper.mjs:17 | lower-casing keeps the length and leaves no ASCII capital |
| Text.Split | disco-up/stack-id-extractor.mjs:24 | splitting on `/` gives one more part than there are slashes; no part holds a slash; joining the parts gives back the input |
| Text.SplitJoin | disco-up/stack-id-extractor.mjs:24 | the other half of the round trip: slash-free parts, joined and split again, come back unchanged |
| ArcNameMapper.PragmaNamesDistinct | disco-up/pragma-organizer.mjs:27-35 | the seven section names are pairwise different |
| ArcNameMapper.DeriveArcNameAndPragma | disco-up/arc-name-mapper.mjs:13-63 | total on every string; a `plugins` result is named by the ID verbatim; any other result's arc name has no ASCII capital |
| ArcNameMapper.SuffixesDisjoint | disco-up/arc-name-mapper.mjs:16-54 | no string ends with two of the seven suffixes |
| ArcNameMapper.ClassifyByRule | disco-up/arc-name-mapper.mjs:16-54 | an ID ending in a convention's suffix is classified by that convention, whatever the order of the checks: the pragma from the table, named by the lower-cased stripped prefix (the HTTP route for `HTTPLambda`) |
| ArcNameMapper.ClassifyEventLambda | disco-up/arc-name-mapper.mjs:16-19 | an ID ending in `EventLambda` is in `events`, named by the lower-cased ID without its last 11 characters |
| ArcNameMapper.ClassifyTopic | disco-up/arc-name-mapper.mjs:20-23 | an ID ending in `Topic` is in `events`, named by the lower-cased ID without its last 5 characters, whatever the earlier check |
| ArcNameMapper.ClassifyHttpLambda | disco-up/arc-name-mapper.mjs:26-30 | an ID ending in `HTTPLambda` is in `http`, named by the route conversion of the ID without its last 10 characters |
| ArcNameMapper.ClassifyTable | disco-up/arc-name-mapper.mjs:33-36 | an ID ending in `Table` is in `tables`, named by the lower-cased ID without its last 5 characters |
| ArcNameMapper.ClassifyQueue | disco-up/arc-name-mapper.mjs:39-42 | an ID ending in `Queue` is in `queues`, named by the lower-cased ID without its last 5 characters |
| ArcNameMapper.ClassifyWebsocket | disco-up/arc-name-mapper.mjs:45-48 | an ID ending in `Websocket` is in `ws`, named by the lower-cased ID without its last 9 characters |
| ArcNameMapper.ClassifyScheduled | disco-up/arc-name-mapper.mjs:51-54 | an ID ending in `Scheduled` is in `scheduled`, named by the lower-cased ID without its last 9 characters, though six checks come before it |
| ArcNameMapper.ClassifySuffix | disco-up/arc-name-mapper.mjs:16-54 | `<stem><suffix>` gets the suffix's pragma and the name made from `stem`, e.g. `FooTopic` gives events/`foo`, `DataTable` gives tables/`data` |
| ArcNameMapper.ClassifyFallback | disco-up/arc-name-mapper.mjs:56-58 | the result is `plugins` if and only if the ID ends with none of the seven suffixes, and then the name is the ID with its casing kept |
| ArcNameMapper.EventExample | disco-up/arc-name-mapper.mjs:16-19 | `MyEventEventLambda` gives events/`myevent`: only the final suffix is stripped |
| ArcNameMapper.MatchMethod | disco-up/arc-name-mapper.mjs:72 | a found method is one of the seven tokens and a prefix of the route part; when none is found, no token is a prefix |
| ArcNameMapper.MethodPrefixUnique | disco-up/arc-name-mapper.mjs:72 | at most one method token is a prefix of a string, so the order of the alternation does not matter |
| ArcNameMapper.MatchMethodOf | disco-up/arc-name-mapper.mjs:72 | a route part starting with a method token matches exactly that token |
| ArcNameMapper.ConvertHttpRoute | disco-up/arc-name-mapper.mjs:70-94 | the converted route has no ASCII capital |
| ArcNameMapper.ClassifyHttp | disco-up/arc-name-mapper.mjs:26-30 | an ID ending in `HTTPLambda` is in `http`, named by the route conversion of what comes before the suffix |
| ArcNameMapper.HttpRoot | disco-up/arc-name-mapper.mjs:78-86 | a method followed by nothing or exactly `Index` gives `<lower-case method> /` |
| ArcNameMapper.HttpPath | disco-up/arc-name-mapper.mjs:78-93 | a method followed by any other path part gives `<lower-case method> /` plus the rewritten path |
| ArcNameMapper.HttpWithoutMethod | disco-up/arc-name-mapper.mjs:72-76 | when the route part starts with none of the seven method tokens, the whole route part is lower-cased and the pragma stays `http` |
| ArcNameMapper.RoutePath | disco-up/arc-name-mapper.mjs:88-91 | the rewritten path has no ASCII capital |
| ArcNameMapper.SlashBeforeCapitalsCount | disco-up/arc-name-mapper.mjs:89 | the replacement adds exactly one slash per capital |
| ArcNameMapper.SlashBeforeCapitalsLetters | disco-up/arc-name-mapper.mjs:89 | the replacement changes nothing but the slashes |
| ArcNameMapper.RoutePathLetters | disco-up/arc-name-mapper.mjs:88-91 | apart from slashes, the path holds the path part's characters lower-cased and in order |
| ArcNameMapper.RoutePathSlashes | disco-up/arc-name-mapper.mjs:88-91 | for a path part starting with a capital, the path has one slash fewer than the part has capitals and slashes |
| ArcNameMapper.HttpPathSlashes | disco-up/arc-name-mapper.mjs:88-93 | the whole HTTP name then has as many slashes as the path part has capitals and slashes, e.g. four for `ApiV1UsersProfile` |
| ArcNameMapper.CapitalRunExample | disco-up/arc-name-mapper.mjs:88-91 | `APIUsers` becomes `a/p/i/users`: a run of capitals is split letter by letter |
| ArcNameMapper.SegmentsAreWords | disco-up/arc-name-mapper.mjs:81-83 | the words of a path part are non-empty, concatenate to it, each after the first starts with a capital, and none holds a capital after its first letter |
| ArcNameMapper.SlashBeforeCapitalsSegments | disco-up/arc-name-mapper.mjs:89 | the replacement equals the words joined with slashes, after a leading slash when the part starts with a capital |
| ArcNameMapper.RoutePathSegments | disco-up/arc-name-mapper.mjs:88-91 | the path is the lower-cased words joined with `/`, unless the path part itself starts with `/` |
| ArcNameMapper.SplitRoutePath | disco-up/arc-name-mapper.mjs:88-91 | splitting the path of a slash-free, non-empty path part at `/` gives exactly its lower-cased words |
| PragmaOrganizer.EmptySections | disco-up/pragma-organizer.mjs:27-35 | the starting map has exactly the seven sections, all empty |
| PragmaOrganizer.Place | disco-up/pragma-organizer.mjs:40 | one store keeps all seven sections |
| PragmaOrganizer.Fold | disco-up/pragma-organizer.mjs:38-41 | the fold keeps exactly the seven sections at every step |
| PragmaOrganizer.OrganizeByPragma | disco-up/pragma-organizer.mjs:25-43 | the result has exactly the seven sections, for any input including the empty list |
| PragmaOrganizer.SevenSections | disco-up/pragma-organizer.mjs:27-35 | the result has seven sections, no more |
| PragmaOrganizer.SectionKeys | disco-up/pragma-organizer.mjs:27-35 | the result's sections are stored under exactly the seven keys `http`, `events`, `tables`, `queues`, `ws`, `scheduled`, `plugins` |
| PragmaOrganizer.EmptyInput | disco-up/pragma-organizer.mjs:27-35 | with no resources all seven sections are present and empty |
| PragmaOrganizer.FoldMembership | disco-up/pragma-organizer.mjs:38-41 | a key is in a section if and only if some entry goes there under that key |
| PragmaOrganizer.FoldLastWins | disco-up/pragma-organizer.mjs:40 | the value under a key is the value of the last entry stored under it |
| PragmaOrganizer.FoldProvenance | disco-up/pragma-organizer.mjs:38-41 | every stored value comes from an entry stored under that section and key |
| PragmaOrganizer.FoldSize | disco-up/pragma-organizer.mjs:38-41 | a section has at most as many keys as entries go to it, and exactly as many when their names are distinct |
| PragmaOrganizer.FoldOrderIrrelevant | disco-up/pragma-organizer.mjs:38-41 | entries that agree wherever they collide give the same map in any order |
| PragmaOrganizer.Membership | disco-up/pragma-organizer.mjs:38-41 | a name is in a section if and only if some resource is classified into that section under that name: every resource lands under its arc name, not its logical ID, and nothing else is added |
| PragmaOrganizer.LastWriteWins | disco-up/pragma-organizer.mjs:40 | the value under a name is the physical ID, unchanged, of the last resource classified under that name and pragma |
| PragmaOrganizer.ValueProvenance | disco-up/pragma-organizer.mjs:38-41 | every stored value is the physical ID of a resource classified into that section under that name |
| PragmaOrganizer.SectionSize | disco-up/pragma-organizer.mjs:38-41 | a section has at most as many keys as resources classified into it, exactly as many when their arc names are distinct, and none when no resource is classified into it |
| PragmaOrganizer.OrderIrrelevant | disco-up/pragma-organizer.mjs:38-41 | when resources classified alike carry the same physical ID, reordering the resources does not change the map |
| StackIdExtractor.ExtractStackId | disco-up/stack-id-extractor.mjs:15-44 | missing, empty or non-string input, and input with fewer than two slashes, give `resources`; otherwise the key is exactly the text after the last slash; the key never holds a slash; the UUID check only decides whether a warning is logged |
| StackIdExtractor.KeyIsFinalSegment | disco-up/stack-id-extractor.mjs:31-39 | a well-formed ARN's key is its final segment, even when that segment is not UUID-shaped (which is warned about) |
| StackIdExtractor.FinalSegmentUnique | disco-up/stack-id-extractor.mjs:31 | a string has only one final segment |
| StackIdExtractor.DeploymentIsolation | disco-up/stack-id-extractor.mjs:24-39 | two well-formed ARNs get equal keys, and equal blob keys, if and only if their final segments are equal; the earlier segments do not matter |
| StackIdExtractor.StorageKey | disco-up/index.mjs:70 | the blob key ends in `/resources.json` |
| StackIdExtractor.StorageKeyInjective | disco-up/index.mjs:70 | different stack IDs get different blob keys |

## Left out

- The Lambda handlers of `disco-up`, `disco` and `disco-down`, the readers in `src/`, and the template changes in `plugins/`. These are AWS SDK calls, S3 and DynamoDB reads and writes, the CloudFormation completion callback, and environment checks. The pure parts are modelled above; the rest is I/O.
- Logging. The classifier's `console.warn` for an unrecognized ID and its `console.error` in the `catch` block (`disco-up/arc-name-mapper.mjs:57,60`) are not modelled; the organizer logs nothing. For the extractor, the diagnostic it would log is returned as `Extraction.warning`, so that "the UUID check never changes the key" can be stated.
- The `catch` blocks of the classifier and the extractor. No exception can reach them for string input. `ExtractStackId` takes an `Option<string>`, where `None` stands for null, undefined and any non-string value.
- Text.Lower: JavaScript's `toLowerCase` is Unicode-aware; the model lower-cases only the ASCII letters A-Z, so every "no capital" property means no ASCII capital. The `[A-Z]` class of the slash-insertion regular expression is ASCII-only in the source too, so slash insertion is exact.
- JavaScript object quirks, such as an arc name of `__proto__`, and key order in the serialised JSON. Dafny maps have neither.
- Idempotence of the organizer. It holds by construction, because every member here is a pure function.
- The description of the route conversion as "split into words and join with `/`" matches the code only when the path part does not start with `/`. The code's final `replace(/^\//, '')` drops such a leading slash. `RoutePath` follows the code, and `RoutePathSegments` states the word view with that exception.
