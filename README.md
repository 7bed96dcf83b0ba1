# Log-tail reader of the sensor dashboard

The dashboard server (`app.py`) keeps one module-level reading, `latest_data`:
a temperature, a humidity and a timestamp. At import time it is `0.0`, `0.0`
and the start-up clock. Every request to `/api/data` calls `read_latest_data`, which reads
all lines of `data.log` and looks only at the last one. It trims that line
with `strip()` and requires the prefix `T:`. It then splits the line on `,`
and takes element 1 of each of the first two parts split on `:`. Both texts
go through `float()`. Only when both conversions succeed is the reading
replaced as a whole, stamped with `time.time()`. Every other path leaves the
reading exactly as it was:

- a missing file prints a message;
- an empty file, or a last line without the prefix, returns silently;
- a missing `,` or `:` raises `IndexError`;
- a text `float()` rejects raises `ValueError`.

Neither exception is caught.

The project has three modules:

- `Wrappers` (`wrappers.dfy`) holds the `Option` type.
- `PyStr` (`pystr.dfy`) models the Python string methods the reader uses: `str.isspace` (the exact set of code points), `strip`, `startswith`, and `split` with a one-character separator. `split` has its inverse `join`. A position-based reference (`Find`, `UpTo`, `Second`) says which text `split(c)[0]` and `split(c)[1]` denote.
- `App` (`app.dfy`) holds the reader:
  - `ExtractFields` computes the field texts the way the code does, by splitting.
  - `ExtractSpec` describes the same texts by position, and `ExtractFieldsMatchesSpec` proves the two agree on every line.
  - `ParseLastLine` adds the two conversions.
  - `Refresh` gives the outcome and the new reading of one call.
  - The class `Reader` holds `latestData`. Its `ReadLatestData` method updates it in place and is proved equal to `Refresh`.

The reader's surroundings become parameters:

- The log file is an `Option<seq<string>>` of lines as `readlines()` returns them, newlines included. `None` stands for a file whose opening raises `FileNotFoundError`.
- `float()` is a function `string -> Option<Float>`, where `None` means it raised `ValueError`.
- A Python float is kept as its 64-bit pattern.
- The clock is a `Float` argument.

An exception escaping the call is the outcome `Raised(IndexError)` or `Raised(ValueError)`.

Behaviour of `read_latest_data` that is easy to miss:

- The reader does not look for the last non-empty line. A blank or whitespace-only final element of `readlines()` leaves the reading unchanged (`BlankLineKeepsReading`).
- The temperature text is the text between the first and the second `:` of the first `,`-part, not everything after the first `:`.
- A non-numeric field is not skipped: `ValueError` propagates, and so does `IndexError` for a missing `,` or `:`.
- The label of the second field is never checked, so `T:1,X:2` parses, and text after a second `,` is ignored (`WellFormedFields`).
- The `IndexError` branch for the temperature part can never be taken, because the `T:` prefix guarantees its `:` (`TempPart`).

## Model

| member | source | states |
|---|---|---|
| `App.Reader.constructor` | app.py:12 | the initial reading is temperature 0.0, humidity 0.0 and the start-up clock |
| `App.Reader.ReadLatestData` | app.py:15-43 | the outcome and the new `latestData` are those of `Refresh` on the old reading; the reading is either unchanged or stamped with this call's clock |
| `PyStr.IsSpace` | app.py:23 | `str.isspace`: the code points `strip()` removes, Python's whitespace set |
| `PyStr.StartsWith` | app.py:26 | `str.startswith`: the text begins with the given prefix |
| `PyStr.StripLeft` | app.py:23 | `lstrip` returns a suffix of its input, removes only whitespace, and leaves a result that does not start with whitespace |
| `PyStr.StripRight` | app.py:23 | `rstrip` returns a prefix of its input, removes only whitespace, and leaves a result that does not end with whitespace |
| `PyStr.Strip` | app.py:23 | the trimmed line is no longer than the line and neither of its ends is whitespace |
| `PyStr.StripPadded` | app.py:23 | `strip` removes exactly the surrounding whitespace: any text whose ends are not whitespace, padded with whitespace, strips back to itself |
| `PyStr.StripNewline` | app.py:21-23 | a line read with its newline strips to the line without it |
| `PyStr.BlankStripsToEmpty` | app.py:23-26 | a whitespace-only line strips to the empty text |
| `PyStr.Split` | app.py:27-29 | `split(sep)` returns at least one piece, no piece holds `sep`, and joining the pieces with `sep` gives back the text |
| `PyStr.SplitJoin` | app.py:27 | splitting a join of separator-free pieces gives back the pieces (the other half of the round trip) |
| `PyStr.Find` | app.py:27-29 | the position of the first occurrence, or the length when there is none |
| `PyStr.SplitFirst` | app.py:28 | `split(sep)[0]` is the text before the first separator |
| `PyStr.SplitSecond` | app.py:29 | `split(sep)[1]` exists exactly when the text holds `sep`, and is the text between the first and second separator |
| `App.ExtractFields` | app.py:23-29 | a line yields no reading exactly when its trimmed form lacks the `T:` prefix; the only error is `IndexError`; neither field text holds `:` |
| `App.ExtractFieldsMatchesSpec` | app.py:23-29 | the split-based extraction equals the positional description on every line: temperature is the text after `T:` up to the next `:` or `,`; humidity is the text between the first and second `:` of the second `,`-part; `IndexError` occurs exactly when the `,` or that `:` is missing |
| `App.TempPart` | app.py:26-28 | on a `T:` line the temperature part always has an element 1, so the temperature never raises |
| `App.ParseLastLine` | app.py:23-32 | the last line is ignored exactly when its trimmed form lacks the `T:` prefix |
| `App.Refresh` | app.py:18-43 | one call of `read_latest_data`: the reading is either kept or replaced with one stamped with this call's clock on a normal return |
| `App.StepOn` | app.py:31-38 | the conversion-and-replace step on known field texts: the reading is kept unless texts were found, and a replacement carries this call's clock |
| `App.RefreshByLastLine` | app.py:20-38 | a call on a non-empty file is decided by the positional field texts of the trimmed last line and the two conversions |
| `App.MissingFileKeepsReading` | app.py:42-43 | a missing file is reported and leaves the reading unchanged |
| `App.EmptyFileKeepsReading` | app.py:21-22 | an empty file returns normally and leaves the reading unchanged |
| `App.LastLineDecides` | app.py:21-23 | two files with the same last line give the same outcome and reading, whatever their earlier lines |
| `App.UnprefixedLineKeepsReading` | app.py:23-26 | a last line without the `T:` prefix returns normally and leaves the reading unchanged |
| `App.BlankLineKeepsReading` | app.py:23-26 | a blank or whitespace-only last line returns normally and leaves the reading unchanged |
| `App.IndexErrorCases` | app.py:27-29 | `IndexError` is raised exactly when the trimmed last line has the `T:` prefix but no `,`, or its second `,`-part has no `:` |
| `App.SpecIndexError` | app.py:27-29 | by position, the extraction fails with `IndexError` exactly on a `T:` line without `,`, or whose second `,`-part has no `:` |
| `App.StepOnRaises` | app.py:31-38 | the conversion step raises `IndexError` exactly on an index error, `ValueError` exactly when a text is rejected, and otherwise keeps the reading or replaces it wholly with both conversions and the clock |
| `App.ValueErrorCases` | app.py:31-32 | `ValueError` is raised exactly when both field texts were found and `float()` rejects either one |
| `App.NoPartialUpdate` | app.py:31-38 | the reading is either unchanged, or replaced as a whole by the conversions of both field texts and this call's clock |
| `App.RaisedKeepsReading` | app.py:18-43 | a call whose exception escapes leaves the reading unchanged |
| `App.ParsedLineReplacesReading` | app.py:34-38 | when both texts convert, the reading becomes exactly the two values and the clock of the call |
| `App.FirstCommaPart` | app.py:27-28 | in `T:<t>,...` the second `,`-part starts after the first `,`, and the temperature text is `t` |
| `App.SecondCommaPart` | app.py:29 | in a second `,`-part `<tag>:<h>`, optionally followed by `,` or `:` and more text, the humidity text is `h` |
| `App.WellFormedFields` | app.py:25-29 | a trimmed `T:<t>,<tag>:<h>`, optionally followed by `,` or `:` and more text, yields the texts `t` and `h` for any tag |
| `App.WellFormedLine` | app.py:23-29 | the same line with any surrounding whitespace yields the same texts |
| `App.NewlineTerminatedFields` | app.py:21-29 | `T:<t>,H:<h>` read with its newline yields the texts `t` and `h` |
| `App.WellFormedLastLineUpdates` | app.py:20-38 | a last line `T:<t>,H:<h>` whose texts convert replaces the reading with both values and the clock, whatever lines precede it |
| `App.SingleLineExample` | app.py:25 | `T:25.5,H:62.1` sets the reading to the conversions of `25.5` and `62.1` |
| `App.LastLineWinsExample` | app.py:21-23 | after `T:-3.2,H:10.0`, the line `T:20.0,H:55.5` decides the reading |

## Left out

- The Flask route `get_data` (app.py:48-57) is not modelled: JSON serialisation and the cross-origin header are framework glue.
- The page served by `index` (app.py:60-180) is not modelled. It is HTML and browser-side JavaScript inside a string, including the chart's 20-point window.
- The server start-up (app.py:182-188) and the unused `Thread` import (app.py:4) are not modelled.
- data_sim.c is not part of this model. It holds random float generation, `printf` formatting, a busy-wait and an endless output loop.
- File I/O is not modelled. The lines are an input, so newline translation by `readlines()` is outside the model. So are errors while opening or reading the file other than `FileNotFoundError`, such as a permission or decoding error, which app.py does not catch either.
- The numeric semantics of `float()` are not modelled. It is an arbitrary partial conversion passed in, so which texts are numbers, and to what value, is not modelled.
- `time.time()` is not modelled. It is a parameter, so the model says only that a successful call stamps the reading with the clock value it is given. Whether timestamps grow from call to call depends on the clock and is outside the model.
- The text of the message printed for a missing file is not modelled. Only the fact that the call reports and returns is captured (`NotFoundReported`).
- Concurrency between the external log writer and this reader is not modelled. A half-written last line is just a line.
