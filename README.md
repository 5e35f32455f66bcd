# Effusion process: adsorption-time table and per-track sticking time

This project models the two pieces of state in the EF10 effusion process
(a Geant4 discrete process for particles that hit a surface and either
re-emit diffusely or stick for a while).

- **The adsorption-time table** of `EffusionProcess`. It is a process-wide map
  from the composite key `partZ*1000 + matA` (`GetIndex`) to a mean residence
  time in CLHEP time units, where the nanosecond is the base unit.
  `SetAdsorptionTime` finds the key, erases it if present and inserts
  `value*nanosecond`. `LoadAdsorptionTime` takes a `"pZ;mZ;time"` command.
  It returns at once on the empty string, splits the rest on `';'` with a
  `std::getline` loop, returns quietly on fewer than three tokens, and
  otherwise passes `stoi`, `stoi`, `stof` of the first three tokens to the
  setter. A conversion that throws keeps the setter from running.
- **`EffusionTrackData`**, the auxiliary record each track carries. It holds the
  latest sticking time and a running total. `SetTimeSticked` stores the time
  and adds it to the total. `SetTotalTimeSticked` overwrites the total on its own.

Files and modules:

- `conversions.dfy` (`Conversions`): `ParseInt` models `std::stoi` and
  `ParseFloat` models `std::stof`. Each returns a `Result` whose error is
  `InvalidArgument` or `OutOfRange`, the two exceptions. Also `NatToString` and
  `IntToString`, the decimal renderings used to state the round trips.
- `tokenizer.dfy` (`Tokenizer`): `Split`, the token list that the `getline` loop
  produces. `Tokenize` is that loop as an imperative method, proved equal to
  `Split`. The module also proves the tokenizer's properties: no token holds a
  `';'`, the token count, and the round trips with `Join`.
- `effusion_process.dfy` (`Effusion`): `GetIndex` and its injectivity and
  collision lemmas. `Erase` and `Insert` model `std::unordered_map` (an
  `insert` on a present key does nothing). `WithAdsorptionTime` gives the table
  after the setter, and `ParseCommand` and `LoadEffect` give what the loader does.
  The class `EffusionProcess` holds the table as a `map<int, real>` field and
  updates it in place through `SetAdsorptionTime` and `LoadAdsorptionTime`.
- `track_data.dfy` (`TrackData`): the class `EffusionTrackData`. Ghost state
  (`base`, `stickings`) records every time passed to `SetTimeSticked`, so the
  running-sum invariant can be stated.

The loader's throw is modelled as the outcome `Rejected(error)` returned by
`LoadAdsorptionTime`. In every rejected case the table is left as it was.
`Ignored` stands for the two quiet early returns, and `Loaded(command)` for a
call that reached the setter.

Points of the code that shape the model:

- `std::stoi` and `std::stof` throw on a malformed number, so a conversion
  failure propagates out of the loader. The model returns it as a `Rejected`
  outcome.
- `CLHEP::nanosecond` is 1, so the stored times are in nanoseconds.
- Repeated calls for one key leave one entry holding the last value
  (`SetEachKeepsLast`). The table then has size 1 exactly when it held no other
  key before (`SetEachSingleEntry`).
- Since `getline` produces no empty final token, `"6;14;"` has only two
  tokens and is ignored. `"6;14;;x"`, however, is rejected because its third
  token is empty (`LoadThreeFields`, `LoadReadsFirstThreeTokens`).

## Model

| member | source | states |
|---|---|---|
| `Conversions.ParseInt` | include/EffusionProcess.hh:95 | `stoi` succeeds only with a value inside the 32-bit `int` range |
| `Conversions.ParseIntReadsRendering` | include/EffusionProcess.hh:95 | `stoi` on the decimal rendering of any integer gives the integer when it fits an `int` and fails with out of range otherwise |
| `Conversions.ParseIntOutOfRange` | include/EffusionProcess.hh:95 | a well-formed number outside the `int` range makes `stoi` fail with out of range |
| `Conversions.ParseIntNoDigits` | include/EffusionProcess.hh:95 | a string without any digit makes `stoi` fail with invalid argument |
| `Conversions.ParseFloat` | include/EffusionProcess.hh:95 | `stof` fails only with invalid argument |
| `Conversions.ParseFloatNoDigits` | include/EffusionProcess.hh:95 | a string without any digit makes `stof` fail with invalid argument |
| `Conversions.ParseIntRoundTrip` | include/EffusionProcess.hh:95 | `stoi` reads back the decimal rendering of every 32-bit `int` exactly |
| `Conversions.ParseFloatOfNat` | include/EffusionProcess.hh:95 | `stof` reads a plain digit string as the natural number it writes |
| `Conversions.ParseFloatOfInt` | include/EffusionProcess.hh:95 | `stof` reads the decimal rendering of any integer, a leading `-` included, as that integer |
| `Conversions.ParseFloatOfDecimal` | include/EffusionProcess.hh:95 | `stof` reads `"a.b"` as `a` plus `b` divided by ten to the power of the number of digits of `b` |
| `Conversions.ParseFloatOfExponent` | include/EffusionProcess.hh:95 | `stof` reads `"aEe"` as `a` times ten to the power `e`, for an exponent of either sign |
| `Conversions.NatToStringValue` | include/EffusionProcess.hh:95 | the digits of the decimal rendering of n evaluate back to n |
| `Tokenizer.FindDelimiter` | include/EffusionProcess.hh:91 | one `getline` call stops at the first `';'`, or at the end when there is none |
| `Tokenizer.Split` | include/EffusionProcess.hh:87-93 | the `getline` loop produces no token exactly when the input is empty; its other properties are the `Split*` lemmas below |
| `Tokenizer.Tokenize` | include/EffusionProcess.hh:87-93 | the `getline`/`push_back` loop yields exactly the token list `Split(s)` |
| `Tokenizer.SplitTokensHaveNoDelimiter` | include/EffusionProcess.hh:91-93 | no token contains the delimiter `';'` |
| `Tokenizer.SplitCount` | include/EffusionProcess.hh:91-94 | a non-empty string gives (number of `';'`) + 1 tokens, or just the number of `';'` when it ends with `';'` |
| `Tokenizer.JoinSplit` | include/EffusionProcess.hh:91-93 | rejoining the tokens with `';'` rebuilds the input, except for a final delimiter, which yields no token |
| `Tokenizer.SplitJoin` | include/EffusionProcess.hh:91-93 | splitting undoes joining for delimiter-free tokens whose last one is non-empty |
| `Tokenizer.SplitThree` | include/EffusionProcess.hh:91-95 | three delimited fields in front of anything are the first three tokens |
| `Effusion.IndexInjective` | include/EffusionProcess.hh:130 | for `0 <= matA < 1000` two pairs share a key if and only if they are equal |
| `Effusion.GetIndex` | include/EffusionProcess.hh:130 | for `0 <= matA < 1000` the key divided by 1000 gives `partZ` and its remainder gives `matA` |
| `Effusion.IndexCollides` | include/EffusionProcess.hh:130 | from `matA >= 1000` on, distinct pairs collide: `(p, m+1000)` and `(p+1, m)` share a key |
| `Effusion.Erase` | include/EffusionProcess.hh:72 | `erase` removes exactly the key and keeps every other entry |
| `Effusion.Insert` | include/EffusionProcess.hh:76 | `insert` adds the key; the key keeps its old value when it was present and gets the new one otherwise; every other entry is kept |
| `Effusion.InsertKeepsExisting` | include/EffusionProcess.hh:70-76 | `insert` on a present key leaves the map unchanged, which is why the setter erases first |
| `Effusion.WithAdsorptionTime` | include/EffusionProcess.hh:67-76 | find/erase/insert maps the key to exactly `value*nanosecond`, adds the key if it was absent, and keeps every other entry |
| `Effusion.SetTwiceKeepsSecond` | include/EffusionProcess.hh:70-76 | setting one pair twice is the same as setting it once to the second value |
| `Effusion.SetSize` | include/EffusionProcess.hh:70-76 | the table grows by one entry exactly when the key was absent, and otherwise keeps its size |
| `Effusion.SetEachKeepsLast` | include/EffusionProcess.hh:63-82 | any number of calls for one pair leave one entry holding the last value; from an empty table, the size is 1 |
| `Effusion.SetSingleEntry` | include/EffusionProcess.hh:70-76 | after one call the table has exactly one entry if and only if it held no key other than the pair's before |
| `Effusion.SetEachSingleEntry` | include/EffusionProcess.hh:63-82 | after any non-empty run of calls for one pair the table has exactly one entry if and only if it held no key other than the pair's before |
| `Effusion.LoadEmptyIgnored` | include/EffusionProcess.hh:86 | the empty command is ignored and the table is unchanged |
| `Effusion.ParseCommand` | include/EffusionProcess.hh:84-95 | a command is ignored if and only if it has fewer than three tokens (the empty string has none) |
| `Effusion.ConvertTokens` | include/EffusionProcess.hh:95 | never ignored; rejected if and only if one of the three conversions fails, reporting the first failing token's error; otherwise the setter receives exactly the three converted values |
| `Effusion.ParseCommandRejected` | include/EffusionProcess.hh:94-95 | a command is rejected if and only if it is non-empty, has at least three tokens, and one of the first three fails to convert |
| `Effusion.LoadEffect` | include/EffusionProcess.hh:84-95 | any outcome but a load leaves the table unchanged; a load maps the command's key to its time and keeps every other entry |
| `Effusion.LoadNeedsTwoDelimiters` | include/EffusionProcess.hh:87-94 | a command with fewer than two `';'` is ignored and leaves the table unchanged |
| `Effusion.LoadReadsFirstThreeTokens` | include/EffusionProcess.hh:91-95 | tokens after the third are ignored, and the outcome depends on the first three tokens alone |
| `Effusion.LoadThreeFields` | include/EffusionProcess.hh:91-95 | `"a;b;c"` with `c` non-empty is decided by its three fields, while `"a;b;"` is ignored |
| `Effusion.LoadFieldsThenRest` | include/EffusionProcess.hh:91-95 | three fields followed by nothing, or by `';'` and anything, are decided by the three fields |
| `Effusion.LoadWellFormed` | include/EffusionProcess.hh:84-95 | `"pZ;mZ;time[;...]"` with `pZ`, `mZ` rendered `int`s and `time` a rendered natural number installs `(pZ, mZ, time)`, the same as calling the setter directly |
| `Effusion.LoadExampleInstalls` | include/EffusionProcess.hh:84-95 | `"6;14;120"` has the same effect as `SetAdsorptionTime(6, 14, 120)` |
| `Effusion.LoadExampleTooShort` | include/EffusionProcess.hh:94 | `"6;14"` is ignored and the table is unchanged |
| `Effusion.LoadExampleRejected` | include/EffusionProcess.hh:95 | `"x;14;120"` fails with invalid argument, and nothing is installed |
| `Effusion.EffusionProcess.SetAdsorptionTime` | include/EffusionProcess.hh:63-82 | the new table is the old one with the key mapped to `value*nanosecond`; the key set gains only that key; every other entry is kept |
| `Effusion.EffusionProcess.LoadAdsorptionTime` | include/EffusionProcess.hh:84-96 | the outcome is `ParseCommand(s)`, the new table is `LoadEffect(old, s)`, and any outcome other than a load leaves the table unchanged |
| `TrackData.EffusionTrackData.StartHistory` | include/EffusionTrackData.hh:63-69 | anchors the recorded history at the current total, whatever it is, so the running-sum invariant holds from there on |
| `TrackData.EffusionTrackData.SetTimeSticked` | include/EffusionTrackData.hh:63-66 | stores `t` and adds it to the total; keeps the running-sum invariant; never decreases the total when `t >= 0`; does not touch the process reference |
| `TrackData.EffusionTrackData.GetTimeSticked` | include/EffusionTrackData.hh:67 | returns the latest sticking time and changes nothing |
| `TrackData.EffusionTrackData.SetTotalTimeSticked` | include/EffusionTrackData.hh:69 | sets the total only, leaving the latest time unchanged; the running-sum invariant survives exactly when the new total equals the running sum |
| `TrackData.EffusionTrackData.GetTotalTimeSticked` | include/EffusionTrackData.hh:70 | returns the total and changes nothing |
| `TrackData.SetTimeStickedTwice` | include/EffusionTrackData.hh:63-67 | two calls add `t1 + t2` to the total, and the getter then returns `t2` |
| `TrackData.TotalAtLeastBase` | include/EffusionTrackData.hh:65 | while the running sum holds and all times are non-negative, the total never falls below its starting value |
| `TrackData.SumAppend` | include/EffusionTrackData.hh:65 | adding one more time to the history adds it to the running sum |

## Left out

- `GetIndex`: the key is an unbounded integer. For `|partZ|` above about
  2.1 million, `partZ*1000 + matA` overflows a C++ `int`, which is undefined
  behaviour. That overflow is not modelled.
- `ParseInt`: `strtol` first reads into a `long` and `stoi` then range-checks
  the result. Both failures are modelled as one `OutOfRange`. Locale-dependent
  white space is not modelled.
- `ParseFloat`: the decimal value is kept exact. Not modelled: rounding to
  `float`, overflow and underflow (which make `stof` throw `out_of_range`), and
  the hexadecimal, `inf` and `nan` forms.
- `ConvertTokens`: C++ does not specify the order in which the three arguments
  are evaluated. When several conversions fail, the model reports the first
  failing token; which exception C++ throws in that case is not determined.
- The `G4cout` lines that log the previous and new values in
  `SetAdsorptionTime`, and `EffusionTrackData::Print`: output only.
- `PostStepDoIt`, `GetMeanFreePath`, `SampleMaxwellBoltzmannKineticEnergy`,
  `SampleLambertianDirection`, `GetDiffusionProbability`,
  `GetAdsorptionProbability`, `GetAdsorptionTime`, `GetFullAdsorptionProbability`
  and `GetTrackData`: only their declarations are in the headers. Their
  substance is random sampling and floating-point kinematics in Geant4 and CLHEP.
- The scratch fields (sampled energy, momentum components, `sqrtkTm`, normals,
  points, `validLocalNorm`), `kCarTolerance` and `fEffusionID`: they serve only
  that unseen code.
- The `G4GenericMessenger` wiring of the command, and the attachment of
  `EffusionTrackData` to a `G4Track` as auxiliary information: engine plumbing.
- The constructors of both classes: their bodies are not in the headers. The
  model therefore states the track data's sums relative to the previous total,
  and assumes no starting value.
- Floating point: times are `real`, so `fTotalTimeSticked += t` is exact
  addition, not `double` addition.
- src/DetectorConstruction.cc (geometry, materials, sensitive detectors) is
  not part of this model.
