# Team-scoped variable placeholders (StreamPark console, `VariableServiceImpl`)

This project models the placeholder engine of StreamPark's variable service.
A team defines variables (a code and a value). Application arguments and
Flink SQL scripts may reference a variable as `${code}`. The service does
three things with these references:

- **Substitution** (`replaceVariable`). A `Matcher` scans the original text
  from left to right for the pattern `\$\{([A-Za-z])+([A-Za-z0-9._-])+\}`.
  For each match whose code has a non-empty value, the working copy is
  rewritten with a literal replace-all of that placeholder.
- **Dependency test** (`isDepend`, `isDependByApplications`). A plain
  substring test for `"${" + code + "}"`, run over every application's
  arguments and then over every decompressed SQL version of the team.
- **Guards on the table.** `createVariable` refuses a code the team already
  has. `deleteVariable` refuses a variable that is still referenced.

Modules, one per concern:

- `Text` (`text.dfy`): the `java.lang.String` operations the service relies
  on. These are substring occurrence (`IndexOf`, `Contains`) and literal
  replace-all (`ReplaceAll`), with lemmas that pin `ReplaceAll` down.
- `Placeholder` (`placeholder.dfy`): the grammar (`ValidCode`,
  `IsPlaceholder`), `getCodeFromPlaceholder`, and a hand-written scanner.
  `MatchAt` matches at one position. `NextMatch` is one `Matcher.find()`.
  `Scan` is the whole `while (matcher.find())` sequence. The scanner is proved
  sound and complete against the grammar.
- `Resolver` (`resolver.dfy`): `replaceVariable`. `Resolve` is the
  specification: a left fold of one replace-all step per match. The method
  `ReplaceVariable` runs the source's loop and is proved equal to it.
- `Dependency` (`dependency.dfy`): `isDepend` and the two-loop
  `isDependByApplications`.
- `Store` (`store.dfy`): the variable table as a class. It holds a map from
  record id to record, and `CreateVariable`/`DeleteVariable` carry the guards.
- `Shapes` and `Examples` (`shapes.dfy`, `examples.dfy`): `replaceVariable`
  on texts with one or two placeholders and no other `$`, and the
  doc-comment example and edge cases as instances.

Two facts about the code shape the model:

- **One-letter codes.** The pattern needs at least two characters after
  `${` (one letter, then one or more code characters), so a one-letter code
  such as `${a}` is never matched. The examples use `ab`, `cd` and `kk`, and
  `Examples.RejectedCodesExample` proves that `${x}` is left alone.
- **Duplicate codes.** The dictionary is built with `Collectors.toMap`
  (line 126), which throws on a duplicate key. The model therefore requires
  distinct codes (`DistinctCodes`), and a valid store guarantees them
  (`Store.TeamListingHasDistinctCodes`).

External inputs become parameters:

- the team's variable list (`findByTeamId`);
- the application and Flink SQL lists (`getByTeamId`);
- the decompression function (`DeflaterUtils.unzipString`);
- the creator id (`commonService.getUserId()`).

## Model

| member | source | states |
|---|---|---|
| `Placeholder.MatchAtIsPlaceholder` | streampark-console/streampark-console-service/src/main/java/org/apache/streampark/console/core/service/impl/VariableServiceImpl.java:56 | The scanner matches `s[i..e]` at `i` exactly when that span is `${`, a letter, at least one more character of `[A-Za-z0-9._-]`, and `}`. |
| `Placeholder.CodeRunEndIsRun` | streampark-console/streampark-console-service/src/main/java/org/apache/streampark/console/core/service/impl/VariableServiceImpl.java:56 | The greedy run of code characters ends at the first character outside the class. |
| `Placeholder.PlaceholderIsWrap` | streampark-console/streampark-console-service/src/main/java/org/apache/streampark/console/core/service/impl/VariableServiceImpl.java:56-60 | `"${" + code + "}"` is a placeholder exactly when `code` is valid. Every placeholder is the wrapping of its own valid code. |
| `Placeholder.CodeFromPlaceholder` | streampark-console/streampark-console-service/src/main/java/org/apache/streampark/console/core/service/impl/VariableServiceImpl.java:177-179 | `getCodeFromPlaceholder` is three characters shorter than its input. Wrapping it gives back the input exactly when the input starts with `${` and ends with `}`. |
| `Placeholder.CodeOfWrap` | streampark-console/streampark-console-service/src/main/java/org/apache/streampark/console/core/service/impl/VariableServiceImpl.java:177-179 | Round trip: `getCodeFromPlaceholder("${" + c + "}") == c` for every code `c`. |
| `Placeholder.PlaceholderShape` | streampark-console/streampark-console-service/src/main/java/org/apache/streampark/console/core/service/impl/VariableServiceImpl.java:56 | A placeholder is at least five characters long. Its only `$` is the first character and its only `}` is the last. |
| `Placeholder.PlaceholdersDoNotOverlap` | streampark-console/streampark-console-service/src/main/java/org/apache/streampark/console/core/service/impl/VariableServiceImpl.java:56 | Two `${...}` literals with no inner `$` or `}` never overlap in a text unless they are the same literal at the same place. |
| `Placeholder.NextMatch` | streampark-console/streampark-console-service/src/main/java/org/apache/streampark/console/core/service/impl/VariableServiceImpl.java:129 | One `find()` from `from` returns a match that starts at or after `from` and lies inside the text. |
| `Placeholder.NextMatchSound` | streampark-console/streampark-console-service/src/main/java/org/apache/streampark/console/core/service/impl/VariableServiceImpl.java:129-130 | The group `find()` returns is an occurrence of a placeholder of the grammar at its start index. |
| `Placeholder.NextMatchLeftmost` | streampark-console/streampark-console-service/src/main/java/org/apache/streampark/console/core/service/impl/VariableServiceImpl.java:129 | `find()` returns the leftmost match: no match starts between the search start and it. |
| `Placeholder.ScanSound` | streampark-console/streampark-console-service/src/main/java/org/apache/streampark/console/core/service/impl/VariableServiceImpl.java:128-130 | Every match of the loop is a placeholder occurrence in the original text. The matches are in order and do not overlap. |
| `Placeholder.ScanComplete` | streampark-console/streampark-console-service/src/main/java/org/apache/streampark/console/core/service/impl/VariableServiceImpl.java:128-130 | Every placeholder occurrence in the original text is one of the loop's matches. |
| `Placeholder.ScanEmptyIffNoPlaceholder` | streampark-console/streampark-console-service/src/main/java/org/apache/streampark/console/core/service/impl/VariableServiceImpl.java:128-129 | The loop finds no match exactly when no placeholder of the grammar occurs in the text. |
| `Placeholder.ScanEmptyWithoutStart` | streampark-console/streampark-console-service/src/main/java/org/apache/streampark/console/core/service/impl/VariableServiceImpl.java:128-129 | A text that does not contain `${` has no match. |
| `Placeholder.RejectedCodeNotMatched` | streampark-console/streampark-console-service/src/main/java/org/apache/streampark/console/core/service/impl/VariableServiceImpl.java:56 | `"${" + code + "}"` with a code outside the grammar (and no `}` in it) is not matched where it starts. |
| `Placeholder.ScanRejected` | streampark-console/streampark-console-service/src/main/java/org/apache/streampark/console/core/service/impl/VariableServiceImpl.java:56 | A text whose only `$` opens a rejected code such as `${x}` or `${1ab}` has no match at all. |
| `Placeholder.ScanSingle` | streampark-console/streampark-console-service/src/main/java/org/apache/streampark/console/core/service/impl/VariableServiceImpl.java:128-130 | A text with one placeholder and no other `$` has exactly that match. |
| `Placeholder.ScanPair` | streampark-console/streampark-console-service/src/main/java/org/apache/streampark/console/core/service/impl/VariableServiceImpl.java:128-130 | A text with two placeholders and no other `$` has exactly those two matches, left one first. |
| `Placeholder.OtherPlaceholderAbsent` | streampark-console/streampark-console-service/src/main/java/org/apache/streampark/console/core/service/impl/VariableServiceImpl.java:174 | In a text whose only `$` opens one placeholder, no other placeholder occurs. |
| `Text.IndexOf` | streampark-console/streampark-console-service/src/main/java/org/apache/streampark/console/core/service/impl/VariableServiceImpl.java:174 | `indexOf(t, from)` is -1 or an occurrence at or after `from`. No occurrence lies between `from` and the result. |
| `Text.IndexOfContains` | streampark-console/streampark-console-service/src/main/java/org/apache/streampark/console/core/service/impl/VariableServiceImpl.java:174 | `String.contains` (an `indexOf` that is not -1) holds exactly when the literal occurs somewhere. |
| `Text.ReplaceAllAbsent` | streampark-console/streampark-console-service/src/main/java/org/apache/streampark/console/core/service/impl/VariableServiceImpl.java:134 | `String.replace` of a literal that does not occur leaves the text unchanged. |
| `Text.ReplaceAllFirst` | streampark-console/streampark-console-service/src/main/java/org/apache/streampark/console/core/service/impl/VariableServiceImpl.java:134 | `String.replace` turns the first occurrence into the value and continues after it. |
| `Text.ReplaceAllKeepsPrefix` | streampark-console/streampark-console-service/src/main/java/org/apache/streampark/console/core/service/impl/VariableServiceImpl.java:134 | `String.replace` keeps a prefix in which no occurrence starts. |
| `Text.ReplaceOnce` | streampark-console/streampark-console-service/src/main/java/org/apache/streampark/console/core/service/impl/VariableServiceImpl.java:134 | An occurrence of the literal whose first character (`$`) appears nowhere else in the text is replaced by the value. |
| `Text.ReplaceTwice` | streampark-console/streampark-console-service/src/main/java/org/apache/streampark/console/core/service/impl/VariableServiceImpl.java:134 | Two occurrences of the literal, whose first character (`$`) appears nowhere else in the text, are both replaced: replace-all, not replace-at-match. |
| `Text.ReplaceFirstOnly` | streampark-console/streampark-console-service/src/main/java/org/apache/streampark/console/core/service/impl/VariableServiceImpl.java:134 | The first occurrence of the literal, when the text after it does not contain the literal, is the only thing replaced. |
| `Resolver.ToMap` | streampark-console/streampark-console-service/src/main/java/org/apache/streampark/console/core/service/impl/VariableServiceImpl.java:126 | With distinct codes, the dictionary maps each variable's code to its value and holds no other code. |
| `Resolver.ReplaceVariable` | streampark-console/streampark-console-service/src/main/java/org/apache/streampark/console/core/service/impl/VariableServiceImpl.java:118-138 | The loop's result equals the fold of replace-all steps over the matches of the original text. Empty text, or a team without variables, is returned unchanged. |
| `Resolver.LoopStep` | streampark-console/streampark-console-service/src/main/java/org/apache/streampark/console/core/service/impl/VariableServiceImpl.java:128-136 | One iteration consumes one match and keeps "remaining steps applied to the working text" equal to the final result. |
| `Resolver.ApplyMatchesUnresolved` | streampark-console/streampark-console-service/src/main/java/org/apache/streampark/console/core/service/impl/VariableServiceImpl.java:132-135 | Matches whose code is missing or has an empty value change nothing. |
| `Resolver.ResolveWithoutPlaceholder` | streampark-console/streampark-console-service/src/main/java/org/apache/streampark/console/core/service/impl/VariableServiceImpl.java:127-137 | A text in which no placeholder of the grammar occurs is returned unchanged, whatever the variables. |
| `Resolver.ResolveWithoutUsableValue` | streampark-console/streampark-console-service/src/main/java/org/apache/streampark/console/core/service/impl/VariableServiceImpl.java:132-135 | If no matched code has a non-empty value, the text is returned unchanged. |
| `Resolver.ReplaceAllKeepsOtherPlaceholder` | streampark-console/streampark-console-service/src/main/java/org/apache/streampark/console/core/service/impl/VariableServiceImpl.java:134 | Replacing one `${...}` literal with no inner `$` or `}` keeps every occurrence of a different such literal where it stands: `a + p + b` becomes `replace(a) + p + replace(b)`. |
| `Resolver.ApplyMatchesKeepsUnresolved` | streampark-console/streampark-console-service/src/main/java/org/apache/streampark/console/core/service/impl/VariableServiceImpl.java:132-135 | Each occurrence of a `${...}` literal with no inner `$` or `}` that is rejected, or has no usable value, survives every step of the loop at its place: the text before it and the text after it go through the steps on their own. |
| `Resolver.ResolveIsFold` | streampark-console/streampark-console-service/src/main/java/org/apache/streampark/console/core/service/impl/VariableServiceImpl.java:119-137 | The early returns for an empty text and an empty variable list give what the loop would give. |
| `Resolver.UnresolvedPlaceholderKept` | streampark-console/streampark-console-service/src/main/java/org/apache/streampark/console/core/service/impl/VariableServiceImpl.java:132-135 | For every occurrence `a + ${code} + b` of a placeholder whose code is missing or maps to an empty value, the output is the resolved `a`, then `${code}` verbatim, then the resolved `b`. No such occurrence is deleted or emptied. |
| `Resolver.RejectedPlaceholderKept` | streampark-console/streampark-console-service/src/main/java/org/apache/streampark/console/core/service/impl/VariableServiceImpl.java:128-135 | For every occurrence `a + ${code} + b` of a code outside the grammar (such as `x` or `1ab`, without `$` or `}`), the output is the resolved `a`, then `${code}` verbatim, then the resolved `b`, whatever the variables. |
| `Resolver.ApplyMatchesAgree` | streampark-console/streampark-console-service/src/main/java/org/apache/streampark/console/core/service/impl/VariableServiceImpl.java:132 | The loop depends on the dictionary only through the matched codes. |
| `Resolver.ResolveReadsOnlyMatchedCodes` | streampark-console/streampark-console-service/src/main/java/org/apache/streampark/console/core/service/impl/VariableServiceImpl.java:128-132 | Only codes matched in the original text are looked up. Two variable sets (either may be empty) that agree on them give the same result, so values are not expanded again. |
| `Shapes.RejectedCodeKept` | streampark-console/streampark-console-service/src/main/java/org/apache/streampark/console/core/service/impl/VariableServiceImpl.java:56 | A text whose only `$` opens `${code}` with a code outside the grammar, and no `}` in the code, is returned unchanged. |
| `Shapes.ResolveSingle` | streampark-console/streampark-console-service/src/main/java/org/apache/streampark/console/core/service/impl/VariableServiceImpl.java:127-137 | In a text with one placeholder and no other `$`, a placeholder with a non-empty value is replaced by that value, and the rest of the text is kept. |
| `Shapes.ResolveRepeated` | streampark-console/streampark-console-service/src/main/java/org/apache/streampark/console/core/service/impl/VariableServiceImpl.java:134 | In a text with no `$` besides the two placeholders, a placeholder that occurs twice is replaced at both places by a value without `$`. |
| `Shapes.ResolveFirstOnly` | streampark-console/streampark-console-service/src/main/java/org/apache/streampark/console/core/service/impl/VariableServiceImpl.java:132-135 | In a text with no `$` besides two different placeholders, the one with a value is replaced and the one without is kept verbatim. |
| `Shapes.ResolveChained` | streampark-console/streampark-console-service/src/main/java/org/apache/streampark/console/core/service/impl/VariableServiceImpl.java:128-134 | In a text with no `$` besides two different placeholders, where the first's value is the second placeholder and the second's value has no `$`, both places end up holding the second value. The literal brought in by the first step is rewritten by the later step. That it is rewritten only because the second placeholder was matched in the original text is `ResolveReadsOnlyMatchedCodes` and `NoRescanExample`. |
| `Examples.DocCommentExample` | streampark-console/streampark-console-service/src/main/java/org/apache/streampark/console/core/service/impl/VariableServiceImpl.java:114 | `"--cluster ${kafka.cluster}"` with `kafka.cluster = "broker1:9092"` resolves to `"--cluster broker1:9092"`. |
| `Examples.IsDependExample` | streampark-console/streampark-console-service/src/main/java/org/apache/streampark/console/core/service/impl/VariableServiceImpl.java:165-167 | `kafka.cluster` is referenced by `"--cluster ${kafka.cluster}"`. `other.code` is not. |
| `Examples.RejectedCodesExample` | streampark-console/streampark-console-service/src/main/java/org/apache/streampark/console/core/service/impl/VariableServiceImpl.java:56 | `${x}` and `${1ab}` are returned unchanged, whatever the variables. |
| `Examples.RepeatedExample` | streampark-console/streampark-console-service/src/main/java/org/apache/streampark/console/core/service/impl/VariableServiceImpl.java:134 | `"${kk}-${kk}"` with `kk = "v"` gives `"v-v"`. |
| `Examples.UnresolvedExample` | streampark-console/streampark-console-service/src/main/java/org/apache/streampark/console/core/service/impl/VariableServiceImpl.java:132-135 | `"${ab} and ${cd}"` with `ab = "1"` gives `"1 and ${cd}"`, whether `cd` is missing or empty. |
| `Examples.NoRescanExample` | streampark-console/streampark-console-service/src/main/java/org/apache/streampark/console/core/service/impl/VariableServiceImpl.java:128-134 | `"${ab}"` with `ab = "${cd}"` and `cd = "final"` gives `"${cd}"`: the value is not scanned. |
| `Examples.ChainedExample` | streampark-console/streampark-console-service/src/main/java/org/apache/streampark/console/core/service/impl/VariableServiceImpl.java:128-134 | `"${ab}${cd}"` with `ab = "${cd}"` and `cd = "X"` gives `"XX"`: the later replace-all also rewrites the literal brought in earlier. |
| `Dependency.IsDepend` | streampark-console/streampark-console-service/src/main/java/org/apache/streampark/console/core/service/impl/VariableServiceImpl.java:169-175 | False on empty text. Otherwise true exactly when `"${" + code + "}"` occurs in the text as a substring. |
| `Dependency.IsDependByApplications` | streampark-console/streampark-console-service/src/main/java/org/apache/streampark/console/core/service/impl/VariableServiceImpl.java:140-161 | True exactly when some application's args, or some decompressed SQL version, contains the placeholder. A null list counts as empty. |
| `Dependency.ToMapWithout` | streampark-console/streampark-console-service/src/main/java/org/apache/streampark/console/core/service/impl/VariableServiceImpl.java:126 | Removing one variable leaves every other code's entry in the dictionary unchanged. |
| `Dependency.UnreferencedVariableIrrelevant` | streampark-console/streampark-console-service/src/main/java/org/apache/streampark/console/core/service/impl/VariableServiceImpl.java:83-88 | Removing a variable that a text does not depend on leaves that text's resolution unchanged. |
| `Dependency.GuardedDeletionPreservesResolution` | streampark-console/streampark-console-service/src/main/java/org/apache/streampark/console/core/service/impl/VariableServiceImpl.java:83-88 | A deletion the guard allows changes the resolution of no application's args and no decompressed SQL. |
| `Store.VariableStore.CreateVariable` | streampark-console/streampark-console-service/src/main/java/org/apache/streampark/console/core/service/impl/VariableServiceImpl.java:73-79 | Fails, with the store unchanged, exactly when the team already has the code. Otherwise adds one record with the creator stamped and keeps codes unique per team. |
| `Store.VariableStore.DeleteVariable` | streampark-console/streampark-console-service/src/main/java/org/apache/streampark/console/core/service/impl/VariableServiceImpl.java:83-88 | Fails, with the store unchanged, exactly when the dependency scan finds a reference. Otherwise removes exactly that record. |
| `Store.TeamListingHasDistinctCodes` | streampark-console/streampark-console-service/src/main/java/org/apache/streampark/console/core/service/impl/VariableServiceImpl.java:122-126 | A team listing from a valid store has distinct codes, so the dictionary construction does not throw. |

## Left out

- `page`, `findByTeamId` and `countByTeamId` are left out. They are MyBatis
  queries with no logic; the team's variable list is a parameter.
- `findByVariableCode` is modelled only as the predicate
  `VariableStore.HasCode`.
- The Spring `@Transactional` annotations and the check-then-act race in
  `createVariable` are left out. They are about concurrency, and the model is
  sequential.
- `DeflaterUtils.unzipString` is an opaque function parameter `unzip`, and
  `commonService.getUserId()` is a parameter `creatorId`.
- The Java regex engine is not modelled. The grammar is re-expressed by the
  scanner in `Placeholder`.
- `Collectors.toMap` throws on duplicate codes and on null values. That error
  path is not modelled: `DistinctCodes` is a precondition, and values are
  non-null strings.
- `ReplaceVariable`: a null `mixed` is not modelled, because strings here
  are never null. For an empty string the code returns it unchanged, as
  modelled.
- `IsDependByApplications`: a null `args` on an application, or a null
  decompressed SQL body, is modelled as the empty string. `isDepend` answers
  false for both alike.
- `findByTeamId` returning null is modelled as the empty list.
  `CollectionUtils.isEmpty` treats both alike.
- A stored record's id is handed out by the store (`nextId`). How the database
  assigns ids is not modelled.
