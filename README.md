# Bus positions API: verified model of the merge and the coordinate decoder

`api/buses.mjs` answers a request for the buses of one route with a GeoJSON
FeatureCollection. It works in two passes:

1. Every vehicle the live bus tracker reports becomes a point feature. Its
   id, latitude, longitude and timestamp are copied unchanged. The numeric
   value of each id goes into a "seen" set.
2. The function then walks the fixed roster `0135, 0143, 0754, 0756, 0757`.
   Each roster id whose number was not seen live is looked up in the
   position store. When the store has a row, a fallback feature is appended.
   Its coordinates come from `clean_number`, which decodes the stored
   fixed-point text: a leading `+` is dropped and a `.` is put before the
   final four digits.

The response is status 200 with a JSON content type.

The project has four modules:

- `Wrappers` (`wrappers.dfy`): the `Option` type.
- `FixedPoint` (`fixed_point.dfy`): `clean_number`.
  - `CleanNumber` is the text `clean_number` hands to `Number`. The string
    rewriting is modelled exactly: `StripPlus`, then the regular-expression
    replace as a leftmost-match search (`FirstMatch`), then `InsertPoint`.
  - `Number(...)` is modelled on the decimal forms that rewriting produces.
    The result is a sign and an integer scaled by 10^4 (`Fixed`), not a
    float.
  - `Encode` writes a value in the stored format. `Decode` inverts it.
- `Selection` (`selection.dfy`): an order-preserving filter on id
  sequences, with its properties. Both filters of the handler have this
  shape: "roster ids not seen" and "of those, the ones with a stored row".
- `Buses` (`buses.dfy`): the handler.
  - The data: live vehicle, stored row, feature, collection, response.
  - Specification functions for the features and the queries.
  - `AddLiveVehicles` and `AddFallbacks`: the two loops of the handler,
    as methods with loop invariants, proved equal to the specification
    functions. `BuildFeatures` runs one after the other on the same
    feature sequence.
  - `Handler`: wraps `BuildFeatures` in the response.
  - Lemmas stating the ordering, counting, origin and no-duplicate
    properties of the result.

The live fetch and the store are inputs:

- The fetch result is `Option<seq<LiveVehicle>>`. `None` stands for a
  response without a vehicle list, on which the handler throws before it
  queries the store.
- The store is a function `string -> Option<Row>`: the most recent row for
  an id, if there is one.
- `Handler` also returns the sequence of store queries it issues. This
  makes "queried once, in roster order, never for a seen id" a statement
  about its result.

The pattern `/(\d{4})$/` only matches four trailing digits, so a string
shorter than four characters, or one ending in anything other than four
digits, is left unchanged (`InsertPoint`, `CleanNumberInsertsOnePoint`).

## Model

| member | source | states |
|---|---|---|
| FixedPoint.StripPlus | api/buses.mjs:8 | a string starting with `+` loses exactly that first character; every other string, including one starting with `-`, is returned unchanged |
| FixedPoint.FirstMatchFinds | api/buses.mjs:9 | the anchored pattern `(\d{4})$` matches in one place only, four characters before the end, and only when those four are digits; otherwise there is no match |
| FixedPoint.InsertPoint | api/buses.mjs:9 | when the text ends in four digits, a `.` is inserted right before them and nothing else changes; otherwise the text is unchanged |
| FixedPoint.CleanNumberKeepsMinus | api/buses.mjs:8-9 | a leading `-` is never removed: the decoded text of a negative value still starts with `-` |
| FixedPoint.CleanNumberInsertsOnePoint | api/buses.mjs:8-9 | after the `+` is stripped, exactly one `.` is added, at the position four before the end; removing it gives the stripped text back; the last four characters are kept; text not ending in four digits is passed on unchanged |
| FixedPoint.DecodeStoredFormat | api/buses.mjs:7-11 | a stored coordinate, an optional `+` or `-` and at least four digits, decodes to that sign and the digits read as an integer scaled by 10^4 |
| FixedPoint.DecodeEncode | api/buses.mjs:7-11 | every signed fixed-point value written in the stored format decodes back to itself |
| FixedPoint.NatToDigitsValue | api/buses.mjs:7-11 | the digits the stored format writes for a number read back as that number |
| FixedPoint.DigitsValueAppend | api/buses.mjs:9-10 | the value of concatenated digit strings is the first value shifted by the length of the second plus the second value |
| FixedPoint.CleanNumberPlusExample | api/buses.mjs:7-11 | `+123456789` becomes `12345.6789` |
| FixedPoint.CleanNumberMinusExample | api/buses.mjs:7-11 | `-987654321` becomes `-98765.4321`, with the sign kept |
| FixedPoint.DecodeLatitudeExample | api/buses.mjs:7-11 | the stored latitude `+411234567` decodes to 41123.4567 |
| Selection.SelectIsOrdered | api/buses.mjs:74-93 | the filter keeps exactly the positions whose id passes, in increasing order, and its k-th result is the id at the k-th such position |
| Selection.SelectCount | api/buses.mjs:74-93 | an id is kept as often as it occurs if it passes and never otherwise; it is in the result if and only if it occurs and passes |
| Selection.SelectTwice | api/buses.mjs:77-93 | filtering by "not seen" and then by "has a row" is filtering by both at once |
| Selection.SelectSize | api/buses.mjs:5 | from repetition-free ids, the number kept is the number of distinct ids that pass |
| Buses.LiveFeatures | api/buses.mjs:57-70 | one feature per live vehicle, in fetch order, the i-th being the feature of the i-th vehicle |
| Buses.SeenNumbers | api/buses.mjs:71 | the seen set holds the number of every live id and nothing else |
| Buses.AddLiveVehicles | api/buses.mjs:57-72 | the `forEach` pushes exactly the live features, in fetch order, and leaves in the seen set exactly the numbers of the live ids |
| Buses.AddFallbacks | api/buses.mjs:74-114 | the roster loop, with its `continue` and its conditional push, queries exactly the roster ids whose number is not in the seen set, in roster order, and appends to the features already built exactly the fallbacks of those queries |
| Buses.BuildFeatures | api/buses.mjs:46-114 | the two passes together build the live features followed by the fallbacks of the queried ids, and issue exactly the queries for the roster ids not seen live |
| Buses.Handler | api/buses.mjs:46-122 | when the fetch fails, no response and no query; otherwise a response around the merged features, with status 200, `Content-Type: application/json` and a collection of type `FeatureCollection` |
| Buses.FallbackIds | api/buses.mjs:90-113 | the fallback features carry, in order, exactly the queried ids the store has a row for |
| Buses.FallbacksFromStore | api/buses.mjs:92-112 | every fallback feature is built from the row the store returned for its own id, with coordinates decoded by `clean_number` |
| Buses.LiveFeaturesFirst | api/buses.mjs:57-72 | the first features are the live vehicles in fetch order, with `vid`, `lat`, `lon` and `tmstmp` unchanged |
| Buses.FeaturesArePoints | api/buses.mjs:59-69 | every feature, live or fallback, is a `Feature` with `Point` geometry whose coordinates are `[longitude, latitude]` of its own properties |
| Buses.FallbackOrder | api/buses.mjs:74-114 | after the live features, the ids are, in roster order, exactly the roster ids whose number was not seen live and that have a stored row |
| Buses.FallbackOrigin | api/buses.mjs:74-114 | each feature after the live ones belongs to a roster id not seen live, has a stored row, and is that row's feature |
| Buses.FallbacksAvoidLiveNumbers | api/buses.mjs:71-79 | no fallback feature has the number of any live vehicle's id |
| Buses.QueriesInRosterOrder | api/buses.mjs:74-90 | the store is queried in roster order, and a roster position is queried if and only if the number of its id was not seen |
| Buses.QueriesPerId | api/buses.mjs:74-90 | an id whose number was seen is never queried; any other id is queried as often as it appears in the roster |
| Buses.FallbacksPerQuery | api/buses.mjs:90-113 | each query adds one fallback feature if the store has a row for the id and none if it has not |
| Buses.FeatureCount | api/buses.mjs:57-114 | with a roster without repeats, the feature count is the number of live vehicles plus the number of unseen roster ids with a stored row |
| Buses.NoFallbackDuplicates | api/buses.mjs:5 | with roster ids of distinct numbers, no two fallback features share a number |
| Buses.SelectKeepsDistinctNumbers | api/buses.mjs:74-79 | filtering ids of distinct numbers keeps the numbers distinct |
| Buses.RosterNumbers | api/buses.mjs:5 | the roster ids denote the vehicles 135, 143, 754, 756 and 757 |
| Buses.RosterDistinct | api/buses.mjs:5 | the roster ids are distinct, both as text and as numbers |
| Buses.RosterLookups | api/buses.mjs:5-93 | with the real roster, each roster id not seen live is queried exactly once and any other id never; it yields exactly one fallback if and only if the store has a row for it |
| Buses.NoLiveVehicles | api/buses.mjs:57-114 | with no live vehicle, the whole roster is queried, and the features are those of the ids with a stored row, in roster order |
| Buses.TwoLiveTwoStored | api/buses.mjs:46-114 | live vehicles 0135 and 9999, with rows stored for 0143 and 0754 only: queries go to 0143, 0754, 0756 and 0757; the features are, in order, 0135, 9999, 0143, 0754 |
| Buses.TwoLiveQueries | api/buses.mjs:71-79 | for live vehicles 0135 and 9999, only 0135 of the roster is skipped |

## Left out

- `getvehicles` (api/buses.mjs:13-24): the HTTP request, URL building and JSON decoding are I/O. Their result is the `fetched` input. A failed or malformed fetch is the single case `None`.
- The DynamoDB client and `QueryCommand` (api/buses.mjs:32-44, 81-90) are a foreign SDK. The store is an input function. Descending timestamp order and `Limit: 1` belong to it, as does the table name. A failing query, an `Items` field that is missing, and a row field that is not a string are not modelled.
- Environment variables, credentials and `console.log` are ambient state and diagnostic output. They do not affect the result.
- `JSON.stringify` of the body: the body is kept as the structured `FeatureCollection` it serialises.
- The route number 14 passed to `getvehicles` is part of the fetch, which is an input.
- `async`/`await`: the handler runs its steps one after another, so it is modelled as a sequential method.
- FixedPoint.ParseNumber: `Number(...)` is a JavaScript float parse. The model gives its value only for an optional sign followed by digits, or by optional digits, a point and exactly four digits (so `.1234` and `-.1234` too), as an exact scaled integer; for every other text (whitespace, exponent, hexadecimal, `Infinity`, the empty string, other fraction widths) it returns `None` instead of a float or NaN, and float rounding is not modelled.
- Buses.Coord: a fallback coordinate is kept as the text `clean_number` hands to `Number`, and a live coordinate as the text the tracker sent. No float is computed.
- Buses.NumberOf: `Number(vid)` is modelled only for non-empty digit strings, as their integer value. Any other text is kept as itself. So ids such as `" 135"` or `"1.35e2"`, which JavaScript reads as 135, do not match roster id `0135` in the model. Two non-numeric ids, which JavaScript makes the single NaN key of a `Set`, stay distinct. JavaScript also rounds digit strings above 2^53, so two distinct long ids can become one `Set` key, while the model keeps them apart. The roster ids are all short digit strings (135 to 757), so all of this is confined to unusual live ids.
