# Event planner core, modelled in Dafny

This project models the three pieces of sequential logic in the event-planning
web application:

- `formatTimeTo12h` (src/lib/utils.ts). It turns a 24-hour `"HH:mm"` time into
  `"h:mm AM EST"` or `"h:mm PM EST"`. It hands back unchanged any input that
  already names a period, has no colon, or does not read as two integers.
  The module is `TimeFormat`, in time_format.dfy.
  - The JavaScript built-ins it relies on are written out as functions:
    `parseInt(_, 10)`, `split(':')`, `toLowerCase`/`includes`, the truncating
    `%`, `toString` on integers and `padStart`.
  - NaN is `None`. `null` and `undefined` are both `None` of `Option<string>`.
- The memoization registry of src/firebase/memo.ts. `useMemoFirebase` records
  every object it returns in a process-wide set. `isFirebaseMemoized` is true
  for non-objects and for recorded objects.
  - This is the class `Memo.MemoRegistry`, whose field is a `set` of object
    identities, in memo.dfy.
  - `JsValue` spells out JavaScript truthiness and `typeof`, so that the
    exclusion of `null` (`typeof null === 'object'`) is explicit.
- The `useCollection` hook of src/firebase/firestore/use-collection.tsx, the
  class `UseCollection.CollectionHook` in use_collection.dfy.
  - It holds the three state cells `data`, `isLoading` and `error`, and the
    target of the live listener.
  - Its methods are the effect body, the snapshot and error callbacks, the
    cleanup and a render.
  - Ghost logs record every listener opened and every listener unsubscribed.
  - The error emitter is the class `ErrorEmitter`, an append-only log of
    events.
  - The invariant `Valid` holds in every reachable state:
    - an error is only shown with no data and not loading;
    - each listener but the live one has been unsubscribed once, in order.

The failure callback ignores the Firestore error it receives: whatever the
failure, the hook shows a "list" permission error on a path derived from the
target. The model has no parameter for the incoming error.

A null target leaves `data` and `error` both null with `isLoading` false.
So a state with loading finished can have neither data nor an error; data and
an error are never present together. The model follows the code:
`CollectionHook.RunEffect` with no target gives no data, no error and not
loading.

Reading negative numbers: `"-5:30"` converts to `"-5:30 AM EST"`, because
JavaScript's `%` keeps the sign of the dividend (`JsRem12`). JavaScript's
`-0` shows exactly as `0` does, both as an hour (`12`) and as minutes (`00`),
so the model's single zero loses nothing.

## Model

| member | source | states |
|---|---|---|
| TimeFormat.FormatTimeTo12h | src/lib/utils.ts:12-33 | The result is `""` exactly for a null, undefined or empty input. An input naming am/pm in any case, an input with no colon, and an input whose first two colon parts do not both read as integers all come back unchanged. |
| TimeFormat.UnreadableUnchanged | src/lib/utils.ts:20-26 | When the hours part or the minutes part is NaN, the input comes back unchanged, with or without text after a second colon. |
| TimeFormat.LaterPartsIgnored | src/lib/utils.ts:20-24 | Only the first two colon-separated parts are read: anything after a second colon changes nothing. |
| TimeFormat.ClockOfTwoParts | src/lib/utils.ts:20-24 | With one colon, the hours and the minutes are read from the texts on either side of it. |
| TimeFormat.Clock | src/lib/utils.ts:20-21 | A time is read only from a text that contains a colon. |
| TimeFormat.Split | src/lib/utils.ts:20 | `split` gives at least one part, no part holds the separator, and there are two or more parts exactly when the separator occurs. |
| TimeFormat.SplitJoin | src/lib/utils.ts:20 | Splitting loses nothing: joining the parts with the separator gives back the input. |
| TimeFormat.SplitFirst | src/lib/utils.ts:20 | The first part is the text before the first separator; the remaining parts are the split of the rest. |
| TimeFormat.ParseInt | src/lib/utils.ts:23-24 | A blank or all-white-space text is NaN, and a negative number needs a minus right after the leading white space. |
| TimeFormat.ParseSigned | src/lib/utils.ts:23-24 | After the white space, a number is read exactly when a digit comes first or right after a single sign; only a minus makes it negative. |
| TimeFormat.ParseIntSkipsSpace | src/lib/utils.ts:23-24 | Leading white space never changes what `parseInt` reads. |
| TimeFormat.TrimStartSkips | src/lib/utils.ts:23-24 | Skipping a white-space prefix and then trimming gives the same text as trimming the rest. |
| TimeFormat.SignHandling | src/lib/utils.ts:23-24 | A leading plus changes nothing; a leading minus negates the number read, and NaN stays NaN. |
| TimeFormat.ReadParts | src/lib/utils.ts:23-26 | Hours and minutes are read exactly when both parts are numbers to `parseInt`, and they are those two numbers. |
| TimeFormat.TrimStart | src/lib/utils.ts:23-24 | `parseInt` skips exactly the leading white space: what remains is a suffix that starts with a non-space. |
| TimeFormat.DigitPrefix | src/lib/utils.ts:23-24 | `parseInt` reads the longest run of decimal digits: a prefix of digits followed by the end or a non-digit. |
| TimeFormat.ParseDigits | src/lib/utils.ts:23-24 | A run of digits followed by a non-digit reads as that run's decimal value. |
| TimeFormat.ParseNegativeDigits | src/lib/utils.ts:23-24 | A minus sign, a run of digits and a non-digit read as the negated value of the run. |
| TimeFormat.ParseIntToString | src/lib/utils.ts:23-30 | `parseInt` reads back any integer that `toString` wrote, whatever non-digit text follows it. |
| TimeFormat.NoDigitsIsNaN | src/lib/utils.ts:23-26 | A text with no decimal digit is NaN to `parseInt`. |
| TimeFormat.DigitlessUnchanged | src/lib/utils.ts:20-26 | A text with no decimal digit comes back unchanged, because its hours part is NaN. |
| TimeFormat.NatToString | src/lib/utils.ts:30 | `toString` of a natural number is a non-empty run of digits with no leading zero. |
| TimeFormat.NatToStringValue | src/lib/utils.ts:30 | The digits `toString` writes have the number's own decimal value. |
| TimeFormat.IntToString | src/lib/utils.ts:30 | `toString` of an integer is digits, with a leading minus exactly for negative numbers. |
| TimeFormat.PadStart | src/lib/utils.ts:30 | `padStart` keeps the text as the suffix and fills up to the width with the fill character. |
| TimeFormat.JsRem12 | src/lib/utils.ts:29 | JavaScript's `h % 12`: strictly between -12 and 12, congruent to `h` modulo 12, and carrying the sign of `h`. |
| TimeFormat.Hours12 | src/lib/utils.ts:29 | The shown hour always agrees with the hours modulo 12. For hours 0 or more it lies in 1..12; a zero remainder, as for 0 and 12, shows as 12. Negative hours show as 12 or in -11..-1, which with the congruence is the truncated remainder (-5 shows as -5). |
| TimeFormat.ShownHourDetermined | src/lib/utils.ts:29 | The contract of the shown hour fixes it: any value meeting it is the shown hour, for every hour, negative ones included. |
| TimeFormat.Period | src/lib/utils.ts:28 | The period is "PM" exactly when the hours are 12 or more, and "AM" otherwise. |
| TimeFormat.MinutesText | src/lib/utils.ts:30 | Minutes 0..9 are shown as '0' and the digit. All other minutes are shown as `toString` writes them. |
| TimeFormat.MinutesReadBack | src/lib/utils.ts:30 | Minutes of 0 or more are shown with at least two characters, and any minutes read back as the same number. |
| TimeFormat.PaddedDigitReadBack | src/lib/utils.ts:30 | A zero-padded single digit reads back as the digit's value. |
| TimeFormat.Trailer | src/lib/utils.ts:28-32 | The text after the minutes is " PM EST" exactly when the hours are 12 or more, and " AM EST" exactly when they are less. |
| TimeFormat.ContainsPair | src/lib/utils.ts:16 | `includes` of a two-character text holds exactly when the two characters occur side by side. |
| TimeFormat.MeridiemAt | src/lib/utils.ts:16 | A text passes the am/pm test exactly when some 'a' or 'p', in either case, is directly followed by 'm' or 'M'. |
| TimeFormat.RenderShape | src/lib/utils.ts:28-32 | The converted text (`Render`) ends in " PM EST" exactly when the hours are 12 or more, and in " AM EST" otherwise. Its clock part reads as the shown hour and the minutes, and it names a period. |
| TimeFormat.ConvertedShape | src/lib/utils.ts:28-32 | Every conversion yields "<h>:<mm> AM EST" or "<h>:<mm> PM EST": exactly the shown hour, a colon, the minutes padded to two digits and the trailer. The period matches the hours read, the clock part reads as the shown hour and the minutes read, and the result differs from its input. |
| TimeFormat.RenderHasMeridiem | src/lib/utils.ts:32 | Every converted text contains "am" or "pm" once lower-cased. |
| TimeFormat.FormatIdempotent | src/lib/utils.ts:16-32 | Formatting is idempotent: formatting any result of the function gives that result back. |
| TimeFormat.RenderClock | src/lib/utils.ts:32 | The clock part of any converted text reads back as the shown hour and the minutes. |
| TimeFormat.TrailerAtEnd | src/lib/utils.ts:28-32 | A text that ends in the trailer ends in " PM EST" exactly when the hours are 12 or more, and in " AM EST" exactly when they are less. |
| TimeFormat.HoursReadBack | src/lib/utils.ts:28-29 | For hours 0..23, the shown hour together with the period gives back the 24-hour hours. |
| TimeFormat.RenderReadBack | src/lib/utils.ts:28-32 | For hours 0..23 and any minutes, reading the converted text as a 12-hour time gives back the same hours and minutes. |
| TimeFormat.FormatReadsBack | src/lib/utils.ts:20-32 | The conversion keeps the time of day. For an input with hours 0..23, reading the output back gives the hours and minutes the input was read as. |
| Memo.Truthy | src/firebase/memo.ts:19 | The falsy values are exactly undefined, null, false, 0 and the empty string. |
| Memo.TypeOf | src/firebase/memo.ts:19 | `typeof` answers "object" exactly for objects and for null. |
| Memo.IsObjectValue | src/firebase/memo.ts:19 | The test `v && typeof v === 'object'` holds exactly for objects. `null` is excluded by its falsiness. |
| Memo.Registered | src/firebase/memo.ts:19-20 | One call adds the returned value's identity when it is an object, and nothing otherwise. |
| Memo.RegistryAfter | src/firebase/memo.ts:19-20 | A run of calls never removes anything from the registry. |
| Memo.RegistryAfterHolds | src/firebase/memo.ts:10-21 | After a run of calls the registry holds exactly the objects it started with and the objects returned. Re-adding changes nothing, and nothing is removed. |
| Memo.MemoRegistry.constructor | src/firebase/memo.ts:10 | The registry starts empty. |
| Memo.MemoRegistry.IsFirebaseMemoized | src/firebase/memo.ts:29-33 | Every non-object, `null` and `undefined` included, counts as memoized. An object counts exactly when the registry holds it. |
| Memo.MemoRegistry.UseMemoFirebase | src/firebase/memo.ts:15-24 | Returns the factory's value unmodified. Registers it when it is an object and leaves the registry unchanged otherwise. Afterwards the value counts as memoized. |
| Memo.MemoRegistry.MemoizedIffReturned | src/firebase/memo.ts:29-33 | For a registry built by a run of `useMemoFirebase` calls, a value counts as memoized exactly when it is not an object or was one of the results. An object never returned counts as not memoized. |
| UseCollection.WithId | src/firebase/firestore/use-collection.tsx:57 | A row keeps every field of the document and adds `id`, the document id, which overrides any `id` field. |
| UseCollection.Rows | src/firebase/firestore/use-collection.tsx:57 | One row per document, in the snapshot's order. |
| UseCollection.FailurePath | src/firebase/firestore/use-collection.tsx:63-69 | A collection reports its path. A query reports its canonical string if non-empty, else its `toString()` if non-empty, else "unknown-query". The initial "unknown-collection" is never reported for a query. |
| UseCollection.FailureError | src/firebase/firestore/use-collection.tsx:71-74 | The permission error carries operation "list" and the derived path. |
| UseCollection.Warns | src/firebase/firestore/use-collection.tsx:86-88 | A render warns exactly when a target is present and its identity is not in the registry. |
| UseCollection.WarnsIffNotMemoized | src/firebase/firestore/use-collection.tsx:86-88 | The render warns exactly when the target is present and was never returned by `useMemoFirebase`. |
| UseCollection.UptoOnce | src/firebase/firestore/use-collection.tsx:54-83 | The log of the first n listeners holds each of them once, and nothing else. |
| UseCollection.ErrorEmitter.Emit | src/firebase/firestore/use-collection.tsx:79 | Emitting appends exactly that event to the log. |
| UseCollection.CollectionHook.Valid | src/firebase/firestore/use-collection.tsx:44-83 | In every reachable state an error comes with no data and not loading, and all listeners but the live one have been unsubscribed. |
| UseCollection.CollectionHook.constructor | src/firebase/firestore/use-collection.tsx:39-41 | Initial state: no data, not loading, no error, no listener opened. |
| UseCollection.CollectionHook.RunEffect | src/firebase/firestore/use-collection.tsx:43-54 | With no target: no data, not loading, no error, and no listener opened. With a target: loading, no error, data kept, and one listener opened on that target, which becomes live. |
| UseCollection.CollectionHook.OnSnapshot | src/firebase/firestore/use-collection.tsx:56-61 | Data becomes the snapshot's rows, the error is cleared, and loading ends. The invariant is kept. |
| UseCollection.CollectionHook.OnError | src/firebase/firestore/use-collection.tsx:62-80 | The error becomes a "list" permission error on the live target's path, data is cleared and loading ends. Exactly one event, carrying that same error, is emitted. The invariant is kept. |
| UseCollection.CollectionHook.Cleanup | src/firebase/firestore/use-collection.tsx:83 | Unsubscribes the live listener, once, and nothing else. The state cells are kept. |
| UseCollection.CollectionHook.Render | src/firebase/firestore/use-collection.tsx:86-90 | Returns the three cells, in which an error never comes with data or loading. Warns exactly when the target is present and not memoized. |
| UseCollection.CollectionHook.EachUnsubscribedOnce | src/firebase/firestore/use-collection.tsx:54-83 | Once no listener is live, every listener ever opened has been unsubscribed exactly once, and nothing else has. |

## Left out

- `parseInt` and `toString` work on IEEE doubles. Digit runs beyond 2^53 lose precision, and `toString` switches to exponent notation from 10^21. The model reads and writes exact integers, so it is faithful only for hours and minutes below 2^53.
- Memo.Truthy: covers only the modelled values. NaN, -0 and the BigInt `0n`, which are also falsy in JavaScript, are not values of `JsValue`. No memo behaviour depends on them, since only objects are registered.
- `toLowerCase` is modelled on ASCII letters only. No other character lower-cases to 'a', 'm' or 'p', so the am/pm test is unaffected.
- React's `useMemo` caching and its dependency list are not modelled. `UseMemoFirebase` calls the factory each time it runs.
- WeakSet garbage collection is not modelled. An entry stays in the registry for good.
- React's effect scheduling and Firestore's `onSnapshot` are not modelled. Each callback is a method call: callbacks arrive only while a listener is live, and React runs the cleanup before the effect runs again.
- The text of the `console.warn` message is left out. The warning is a boolean.
- src/firebase/errors.ts is not part of this model: `FirestorePermissionError` is reduced to its operation and path.
- src/firebase/error-emitter.ts is not part of this model: the emitter is the log of what it was asked to emit, and its listeners are left out.
- `cn` in src/lib/utils.ts is a wrapper over third-party class-name helpers, and is left out.
- The pages, the AI flows and the Firebase bootstrap files hold no core logic, and are left out.
