# Whitelisted environment lookup

This project models the request handler of a small demonstration web app
(`pages/api/env.js`). The handler answers a GET request with the values of
environment variables. Only names on a whitelist are answered. The whitelist
comes from the variable `ALLOWED_RUNTIME_KEYS`. It is a comma-separated list:
it is split on `,`, each piece is trimmed, and empty pieces are dropped.

The handler works in three steps, and the model follows them:

1. Parse the whitelist (module `Whitelist`). `Split`, `Trim`, `TrimAll` and
   `NonEmpty` are pure functions. `ParseWhitelist` composes them. An unset
   variable is read as the empty string.
2. Choose the names to look up (`EnvHandler.SelectKeys`). The `key` query
   value is one of three things, `Absent | Scalar(key) | Many(keys)`. An array
   is used as given. A non-empty string becomes a one-name list. A missing or
   empty string falls back to the whole whitelist.
3. Build the result (`EnvHandler.BuildValues`). This is a method with a loop:
   it walks the chosen names, skips (`continue`) those not on the whitelist,
   and binds every other one to its value, or to `Null` when it is unset.
   The environment's `??` keeps an empty-string value as `Str("")`.

`EnvHandler.Handler` puts the three steps together. It returns
`Response(200, allowed, values)` and has no error path. The environment is a
`map<string, string>` parameter. The JSON response is a returned record.

The properties proved:
- Every whitelist entry is non-empty. It has no whitespace at either end and
  no comma.
- Parsing keeps order and duplicates. A list of clean names joined with commas
  parses back to exactly itself (`ParseListJoin`). The names of `a,b` are the
  names of `a` followed by those of `b` (`ParseListConcat`). A value shaped
  like `"A, A,B"` gives `["A", "A", "B"]` (`ParseKeepsDuplicates`).
- An unset or empty whitelist gives `allowed == []` and no values.
- Nothing outside the whitelist is ever returned. With no usable key, the
  answered names are exactly the whitelist. With explicit keys, they are the
  requested names that are on the whitelist.
- The answer is determined by the request and the environment, and the
  `allowed` field does not depend on the query.

Two edge cases of the key choice follow the code's truthiness test
(`pages/api/env.js:10`). An empty array `Many([])` is used as given and gets
no values. An empty-string key `Scalar("")` falls back to the whole
whitelist, like a missing one.

## Model

| member | source | states |
|---|---|---|
| Whitelist.Split | pages/api/env.js:6 | a split always gives at least one piece, and no piece contains the separator |
| Whitelist.JoinSplit | pages/api/env.js:6 | joining the pieces of a split with the separator gives back the original string, so splitting loses nothing |
| Whitelist.SplitJoin | pages/api/env.js:6 | splitting a join of separator-free pieces gives back exactly those pieces |
| Whitelist.SplitConcat | pages/api/env.js:6 | a separator between two strings splits into the pieces of the left string followed by those of the right |
| Whitelist.SplitNoSep | pages/api/env.js:6 | a string without the separator splits into one piece, itself |
| Whitelist.TrimStart | pages/api/env.js:7 | the result is no longer than the input and does not start with whitespace |
| Whitelist.TrimStartCuts | pages/api/env.js:7 | what TrimStart keeps is the tail of the input, and everything it cut off in front is whitespace |
| Whitelist.TrimEnd | pages/api/env.js:7 | the result is no longer than the input, does not end with whitespace, and keeps the first character |
| Whitelist.TrimEndCuts | pages/api/env.js:7 | what TrimEnd keeps is the head of the input, and everything it cut off behind is whitespace |
| Whitelist.Trim | pages/api/env.js:7 | the result has no whitespace at either end and is no longer than the input |
| Whitelist.TrimOfTrimmed | pages/api/env.js:7 | a string with no whitespace at either end is unchanged by trimming |
| Whitelist.TrimIdempotent | pages/api/env.js:7 | trimming twice gives the same as trimming once |
| Whitelist.TrimKeepsOut | pages/api/env.js:7 | trimming never introduces a character, so a trimmed piece still has no comma |
| Whitelist.TrimPadded | pages/api/env.js:7 | whitespace in front of a trimmed non-empty name is removed and the name is kept |
| Whitelist.TrimAll | pages/api/env.js:7 | mapping the trim keeps the number of pieces |
| Whitelist.TrimAllAt | pages/api/env.js:7 | each position of the mapped list holds the trim of the piece at that position |
| Whitelist.TrimAllConcat | pages/api/env.js:7 | mapping the trim over a concatenation is the concatenation of the mapped parts |
| Whitelist.NonEmpty | pages/api/env.js:8 | the filter keeps no empty string and never lengthens the list |
| Whitelist.NonEmptyMembers | pages/api/env.js:8 | a string is kept exactly when it is in the input and is not empty |
| Whitelist.NonEmptyConcat | pages/api/env.js:8 | filtering a concatenation gives the filtered parts in the same order |
| Whitelist.NonEmptyOfNonEmpty | pages/api/env.js:8 | a list with no empty strings is kept whole, duplicates included |
| Whitelist.ParseList | pages/api/env.js:6-8 | every name produced by split, trim and filter is non-empty, has no whitespace at either end and no comma |
| Whitelist.ParseEmpty | pages/api/env.js:5-8 | the empty string gives no names |
| Whitelist.ParseWhitelist | pages/api/env.js:5-8 | every entry is clean, and an unset or empty variable gives the empty whitelist |
| Whitelist.ParseListConcat | pages/api/env.js:5-8 | the names of `a,b` are the names of `a` followed by the names of `b`, so order and duplicates are kept |
| Whitelist.ParseListJoin | pages/api/env.js:5-8 | clean names joined with commas parse back to exactly that list |
| Whitelist.ParsePair | pages/api/env.js:5-8 | the value `a,b` of two clean names gives the whitelist `[a, b]` |
| Whitelist.ParseSingle | pages/api/env.js:5-8 | a comma-free value gives its trimmed self, or nothing when it is blank |
| Whitelist.ParseThree | pages/api/env.js:5-8 | three comma-free, non-blank pieces give their three trimmed names in order |
| Whitelist.ParseKeepsDuplicates | pages/api/env.js:5-8 | a value like `"A, A,B"` gives `["A", "A", "B"]`: padding is trimmed and the repeat is kept |
| EnvHandler.BuildValues | pages/api/env.js:12-17 | the result's names are exactly the chosen names that are on the whitelist, and each is bound to its environment value or null |
| EnvHandler.Handler | pages/api/env.js:1-19 | the response has status 200, `allowed` is the whitelist parsed from `ALLOWED_RUNTIME_KEYS`, and `values` holds exactly the selected whitelisted names, each bound to its environment value or null |
| EnvHandler.AnswerIsOk | pages/api/env.js:5-8 | the status is always 200 (there is no error path) and every disclosed name is clean |
| EnvHandler.OnlyWhitelistedAnswered | pages/api/env.js:13-14 | no name outside the whitelist is ever returned, whatever is requested |
| EnvHandler.EmptyWhitelistAnswersNothing | pages/api/env.js:5-14 | an unset or empty whitelist gives `allowed == []` and no values for any query |
| EnvHandler.DefaultAnswersWhitelist | pages/api/env.js:10-17 | a missing or empty-string key answers exactly the names on the whitelist |
| EnvHandler.ExplicitAnswersIntersection | pages/api/env.js:10-17 | an array key answers requested ∩ whitelist, and a non-empty string key answers that name if and only if it is whitelisted |
| EnvHandler.ValuesAreLookups | pages/api/env.js:16 | an answered value is null exactly when the variable is unset, and otherwise it is the variable's string, an empty string included |
| EnvHandler.AnswerIsUnique | pages/api/env.js:1-19 | two answers to the same request under the same environment are equal, so repeating a request gives the same response |
| EnvHandler.AllowedIgnoresQuery | pages/api/env.js:5-19 | the `allowed` field is the same whatever the query |
| EnvHandler.ExplicitWhitelistIsDefault | pages/api/env.js:10 | asking for the whole whitelist as an array gives the same answer as asking for nothing |
| EnvHandler.RepeatedKeysCollapse | pages/api/env.js:13-16 | requesting every name twice gives the same answer as requesting it once |
| EnvHandler.ExampleAnswer | pages/api/env.js:5-19 | with whitelist `a,b` and only `a` set to `v`, asking for `a`, `b` and `c` gives `{a: v, b: null}`, with `c` left out |

## Left out

- The display page (`pages/index.js`) is not part of this model. It is React UI with a network fetch. Its whitelist parse is the same as the one modelled here.
- How the web framework turns `?key=a&key=b` into an array or a string is not modelled. The three-way `Query` datatype is taken as given.
- HTTP is not modelled. The process environment is a map parameter and the response is a returned record.
- Key order in the JSON `values` object is not modelled, because `values` is a Dafny `map`. JavaScript object quirks, such as integer-like keys being reordered or `__proto__` as a key, are left out too.
- EnvHandler.Lookup: an unset name is always `Null`. In Node, `process.env[k] ?? null` (`pages/api/env.js:16`) falls through to `Object.prototype` for an unset name such as `toString` or `constructor`, so a whitelisted but unset name of that kind gets a function, which the JSON output then drops. The environment here is a plain map with no prototype.
- Whitelist.IsSpace: this is a fixed whitespace set. It holds the six ASCII whitespace characters and U+00A0, U+FEFF, U+2028 and U+2029. It does not hold the other Unicode space separators that JavaScript's `trim` also removes, so the trim properties are stated relative to this set.
- EnvHandler.SelectKeys and EnvHandler.Lookup carry no contract of their own: each is the source's rule written as a definition, and what it means is stated through `Answers` and the lemmas above (`DefaultAnswersWhitelist`, `ExplicitAnswersIntersection`, `ValuesAreLookups`).
