# Breed description service — a verified Dafny model

This project models `BreedDescriptionService`, the one component with logic in the
chicken picker Angular client. The service does four things:

- **Class descriptions.** It looks up the description of an American Poultry
  Association class in a fixed seven-entry table.
- **Purpose descriptions.** It looks up the description of a breed purpose in a
  fixed seven-entry table. It treats `"show"` as an alias of `"Exhibition"` and
  capitalizes the first letter of every other purpose before the lookup.
- **Purpose conversion.** It splits a breed's purpose string on `", "` and
  collapses the tokens to `["Dual-purpose"]` when they contain both `"meat"` and
  `"eggs"`.
- **Image paths.** It writes, in place, the photo path
  `assets/breed_photos/<name without whitespace, lower-cased>.jpg` into every breed
  record of an array, and returns that same array.

The model is in three modules:

- `Wrappers` holds `Option` and `Result`. `None` stands for JavaScript's `undefined`,
  and `Failure` stands for a thrown exception.
- `JsStrings` holds the JavaScript runtime operations the service calls:
  - `String.prototype.split` for a non-empty separator, with `join` as its partner;
  - `Array.prototype.indexOf`;
  - ASCII upper- and lower-casing;
  - the ECMAScript `\s` character class and `replace(/\s+/g, '')`.
- `BreedDescriptionService` holds the two tables as constant maps, the four
  operations, the breed record as a class, and the in-place update as a method with
  a loop.

The lookups are pure functions. `AddImageUrlToBreeds` is a method over an
`array<Breed>`. It `modifies` exactly the records in the array and returns the same
array.

The doc comment of `convertPurpose` suggests that the result is `["Dual-purpose"]`
exactly when the tokens contain `"meat"` and `"eggs"`. That is false for the input
`"Dual-purpose"` itself, whose single token passes through unchanged.
`ConvertPurposeCollapsesIff` proves the statement with that case added.

An empty purpose makes `capitalizeFirstLetter` read `word[0]`, which is `undefined`.
Calling `.toUpperCase()` on it throws a `TypeError`. The model gives this case an
explicit error result, `Failure(TypeError)`. `convertPurpose("")` converts to `[""]`,
and describing that token would throw (`EmptyPurposeThrows`).

## Model

| member | source | states |
|---|---|---|
| `JsStrings.Split` | src/app/breed-description.service.ts:71 | splitting always yields at least one token, even for the empty string |
| `JsStrings.JoinSplit` | src/app/breed-description.service.ts:71 | joining the tokens with the separator gives back exactly the string that was split |
| `JsStrings.SplitAvoidsSeparator` | src/app/breed-description.service.ts:71 | no token contains the separator |
| `JsStrings.SplitJoin` | src/app/breed-description.service.ts:71 | when occurrences of the separator cannot overlap, splitting undoes joining for separator-free tokens; with JoinSplit, the tokens are the only separator-free sequence that joins back to the input |
| `JsStrings.IndexOf` | src/app/breed-description.service.ts:73 | `indexOf` returns -1 exactly when the value is absent; otherwise it returns the first index that holds the value |
| `JsStrings.ToUpperChar` | src/app/breed-description.service.ts:118 | the upper-cased character is never an ASCII lower-case letter; it differs from the input exactly when the input is a-z, and then it is the matching capital A-Z |
| `JsStrings.ToLowerChar` | src/app/breed-description.service.ts:107 | the lower-cased character is never an ASCII capital; it differs from the input exactly when the input is A-Z, and then it is the matching letter a-z |
| `JsStrings.LowerCase` | src/app/breed-description.service.ts:107 | `toLowerCase` keeps the length and passes every character through `ToLowerChar` (ASCII letters only) |
| `JsStrings.ToUpperCharPreimage` | src/app/breed-description.service.ts:118 | the characters that upper-case to a capital letter are that letter and its lower-case form |
| `JsStrings.ToLowerCharKeepsWhitespace` | src/app/breed-description.service.ts:107 | lower-casing neither creates nor removes whitespace |
| `JsStrings.StripWhitespace` | src/app/breed-description.service.ts:107 | removing every run of `\s` leaves no whitespace, never lengthens the name, and leaves a whitespace-free name unchanged |
| `JsStrings.StripWhitespaceKeepsOthers` | src/app/breed-description.service.ts:107 | whitespace is deleted, not replaced: every other character occurs in the result exactly as often as in the name |
| `JsStrings.StripWhitespaceAppend` | src/app/breed-description.service.ts:107 | whitespace removal distributes over concatenation, so each whitespace character is dropped wherever it stands |
| `BreedDescriptionService.Lookup` | src/app/breed-description.service.ts:84 | a lookup is defined exactly for the table's own keys and returns that key's entry |
| `BreedDescriptionService.IsDualPurpose` | src/app/breed-description.service.ts:72-74 | the two `indexOf(..) > -1` tests hold exactly when both "meat" and "eggs" are tokens |
| `BreedDescriptionService.ConvertPurpose` | src/app/breed-description.service.ts:70-76 | the result is never empty and no token holds ", "; with both "meat" and "eggs" it is ["Dual-purpose"]; otherwise its tokens join back to the input |
| `BreedDescriptionService.ConvertPurposeCollapsesIff` | src/app/breed-description.service.ts:71-75 | the result is ["Dual-purpose"] exactly when the tokens contain "meat" and "eggs", or the input is "Dual-purpose" itself |
| `BreedDescriptionService.ConvertPurposeKeepsTokens` | src/app/breed-description.service.ts:71-75 | without the collapse, the result is the unique separator-free token sequence that joins to the input, so order, case and duplicates are kept |
| `BreedDescriptionService.ConvertPurposeMeatAndEggs` | src/app/breed-description.service.ts:70-76 | "meat, eggs" and "eggs, meat" both become ["Dual-purpose"]: the order of the two tokens does not matter |
| `BreedDescriptionService.ConvertPurposeMeatAndOrnamental` | src/app/breed-description.service.ts:70-76 | "meat, ornamental" becomes ["meat", "ornamental"] |
| `BreedDescriptionService.ConvertPurposeEggsOnly` | src/app/breed-description.service.ts:70-76 | "eggs" becomes ["eggs"] |
| `BreedDescriptionService.ConvertPurposeIsCaseSensitive` | src/app/breed-description.service.ts:70-76 | "Meat, Eggs" is not collapsed, because matching is exact and case-sensitive |
| `BreedDescriptionService.GetApaClassDescription` | src/app/breed-description.service.ts:83-85 | a description exists exactly for the seven class names of the table, and it is that name's entry |
| `BreedDescriptionService.ApaClassLookupIsExact` | src/app/breed-description.service.ts:83-85 | "American" has a description; "american", "Not listed", "NotListed" and "Unknown" have none |
| `BreedDescriptionService.CapitalizeFirstLetter` | src/app/breed-description.service.ts:117-119 | needs a non-empty word; keeps the length and every character after the first, and upper-cases the first |
| `BreedDescriptionService.CapitalizeFirstLetterIdempotent` | src/app/breed-description.service.ts:117-119 | capitalizing twice is the same as capitalizing once |
| `BreedDescriptionService.CapitalizePreimage` | src/app/breed-description.service.ts:117-119 | the words that capitalize to a capitalized key are the key itself and the key with its first letter in lower case |
| `BreedDescriptionService.GetBreedPurposeDescription` | src/app/breed-description.service.ts:93-98 | throws exactly on the empty purpose; "show" gives the Exhibition entry; any other purpose gives the entry of its first-letter-upper-cased form |
| `BreedDescriptionService.ShowIsExhibition` | src/app/breed-description.service.ts:94-97 | "show", "exhibition" and "Exhibition" have the same description; "Show" has none |
| `BreedDescriptionService.PurposeFirstLetterCaseIgnored` | src/app/breed-description.service.ts:97 | purposes other than "show" that differ only in the case of their first letter have the same description ("show" and "Show" do not) |
| `BreedDescriptionService.PurposeDescriptionDomain` | src/app/breed-description.service.ts:93-98 | a purpose has a description exactly when it is "show", a table key, or a table key with a lower-case first letter (15 strings) |
| `BreedDescriptionService.DualPurposeIsDescribed` | src/app/breed-description.service.ts:75 | the "Dual-purpose" token produced by the collapse always has a description |
| `BreedDescriptionService.EmptyPurposeThrows` | src/app/breed-description.service.ts:118 | the empty purpose string converts to [""], and describing that token would throw |
| `BreedDescriptionService.PropertyLookup` | src/app/breed-description.service.ts:84 | as written, `table[key]` yields the table's own entry, else the member of that name inherited from `Object.prototype`, else `undefined` |
| `BreedDescriptionService.PropertyLookupAgreesWithLookup` | src/app/breed-description.service.ts:84 | away from the inherited member names, the lookup as written agrees with `Lookup` |
| `BreedDescriptionService.InheritedClassMemberIsNotAbsent` | src/app/breed-description.service.ts:84 | as written, the class name "constructor" returns the inherited `Object` constructor, while the model has no description for it |
| `BreedDescriptionService.InheritedPurposeMemberIsNotAbsent` | src/app/breed-description.service.ts:97 | as written, the purpose "__proto__" (unchanged by capitalizing) returns the inherited `Object.prototype`, while the model has no description for it |
| `BreedDescriptionService.Slug` | src/app/breed-description.service.ts:107 | the file name of a breed's photo has no whitespace and no upper-case ASCII letter, and is no longer than the name |
| `BreedDescriptionService.ImageUrl` | src/app/breed-description.service.ts:107 | the path is the photo directory, then the slug, then ".jpg", and the slug can be read back from it |
| `BreedDescriptionService.ImageUrlSharedIff` | src/app/breed-description.service.ts:107 | two names get the same path exactly when their slugs are equal |
| `BreedDescriptionService.SlugIdempotent` | src/app/breed-description.service.ts:107 | a slug is its own slug |
| `BreedDescriptionService.SlugAppend` | src/app/breed-description.service.ts:107 | the slug of a concatenation is the concatenation of the slugs |
| `BreedDescriptionService.StripLowerCommute` | src/app/breed-description.service.ts:107 | removing whitespace and lower-casing can be done in either order |
| `BreedDescriptionService.ImageUrlIgnoresWhitespace` | src/app/breed-description.service.ts:107 | inserting a whitespace character into a name does not change its path |
| `BreedDescriptionService.ImageUrlIgnoresCase` | src/app/breed-description.service.ts:107 | lower-casing a name does not change its path |
| `BreedDescriptionService.ImageUrlOfThreeWords` | src/app/breed-description.service.ts:107 | three words joined by single spaces, such as "Rhode Island Red", get the path of the three words run together in lower case |
| `BreedDescriptionService.ImageUrlRhodeIslandRed` | src/app/breed-description.service.ts:107 | "Rhode Island Red" gets the path "assets/breed_photos/rhodeislandred.jpg" |
| `BreedDescriptionService.AddImageUrlToBreeds` | src/app/breed-description.service.ts:105-110 | returns the same array with the same elements and unchanged names; every record's `imgUrl` is the path of its name; a record that already held its path keeps it, so a second run changes nothing |
| `BreedDescriptionService.AddImageUrlTwice` | src/app/breed-description.service.ts:105-110 | running the service twice on a record leaves the same path both times |

## Left out

- The Angular wiring is not modelled: the `@Injectable` decorator, the empty constructor, and `app.module.ts` with its declarations, imports and routes. None of it has behaviour of its own.
- `ToUpperChar` and `ToLowerChar` map only the ASCII letters. JavaScript also maps non-ASCII letters, and may expand one character into several (`"ß".toUpperCase()` is `"SS"`). So `CapitalizeFirstLetter` keeps the length in the model, which JavaScript does not always do.
- `CapitalizeFirstLetter` takes `word[0]` to be the first Unicode scalar value. In JavaScript it is the first UTF-16 code unit, which differs for characters outside the Basic Multilingual Plane.
- The whitespace class is the full ECMAScript `\s` set, fixed as of current Unicode. Future changes to the Unicode space separators are not tracked.
- The description texts are stored as the constants of the two tables. The proofs rely only on the keys and on which entry each lookup returns.
- Breed records are typed `any` in the source. The model keeps only the `breed` name, as a string, and `imgUrl`, which is `None` until it is set. The crash on a record with no `breed` field is not modelled.
- `Split` covers only a non-empty separator without a `limit` argument, which is how the source calls it.

## Findings

| source | as written | input that shows it | evidently intended | confidence | as-written member | corrected member |
|---|---|---|---|---|---|---|
| src/app/breed-description.service.ts:84 | `this.classDescriptions[apaClass]` (and `this.purposeDescriptions[...]` at :97) indexes a plain object literal, so a name missing from the table falls through to `Object.prototype` | `getApaClassDescription("constructor")` returns the `Object` constructor; `getBreedPurposeDescription("__proto__")` returns `Object.prototype` (its capitalized form is unchanged) | no description (`undefined`) for every name outside the table, as the `string` return type and the doc comments say | not executed; JavaScript semantics are certain, but whether callers ever pass such names is unknown | `BreedDescriptionService.InheritedClassMemberIsNotAbsent`, `BreedDescriptionService.InheritedPurposeMemberIsNotAbsent` | `BreedDescriptionService.GetApaClassDescription`, `BreedDescriptionService.PurposeDescriptionDomain` |
