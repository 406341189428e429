# mqttagent temperature store and message handling, in Dafny

mqttagent listens to MQTT messages from Zigbee temperature sensors. For each
accepted reading it updates the device's record, appends the temperature to a
per-device store that is rewritten to `temps.txt` at once, and publishes the
device's rounded 24-hour average to `average/<device>`.

This project models:

- `TempsFile` (Averages.py). The store is an insertion-ordered dictionary
  `device -> (timestamp -> temperature)`, so file order follows Python's dict
  order.
  - `Readings` holds the pure parts: the 24-hour window, recording a reading,
    the rounded average, and the part of the store a save keeps.
  - `TempsCodec` holds the `temps.txt` text. It covers what `save_temps`
    writes and what `load_temps` reads back, and proves the round trip.
  - `Averages.TempsFile` is the class. Its methods load, save and add in
    place, with the loops of the source.
- `Dev` (Dev.py) as the record `Devs.Dev`. `Devs.NewDev` gives a record whose
  temperature, humidity, battery and average are all `0.0`.
- main.py (module `Agent`):
  - the device list, topics and device records built from the configuration
    (`Agent.LoadDevices` gives the configured list, or `[]` without a
    `devices` key; `Agent.Prefix` gives `topics_prefix`, by default
    `zigbee2mqtt`);
  - the check chain of `handle_message` (`Agent.NumberOf` is the numeric
    test, which a boolean passes as 1 or 0);
  - the class `Agent.Agent`, whose `HandleMessage` updates the record, the
    store and the list of published averages.

Supporting modules:

- `Dicts`: the insertion-ordered dictionary.
- `Text`: `split`, `join` and `strip`, plus the line reading of a text file.
- `Wrappers`: `Option` and `Result`.

Conventions:

- The clock is a parameter `now`. Timestamps are integers counting
  microseconds.
- Temperatures are reals. `round(x, 2)` is exact round-half-even to hundredths.
- The text forms of timestamps and temperatures are supplied functions
  (`TempsCodec.Codec`). They stand for `isoformat`/`fromisoformat` and
  `str`/`float`. The round trip holds for every codec whose tokens read back
  and contain no `,` or whitespace, and for device names
  (`TempsCodec.IsDeviceName`) that hold no `,`, no `\n`, no `\r` and no
  leading whitespace. Under these conditions a saved file holds no `\r`
  (`TempsCodec.SaveTextAvoidsReturn`), so
  text-mode reading, which also ends a line at `\r`, splits it exactly where
  `Text.Lines` does.
- The file is the field `TempsFile.file`, the contents of `temps.txt`. It is
  `None` while the file does not exist.

What the code does, and does not do:

- The code has no dirty flag, lock or background writer, despite the comment
  at main.py:69: every `add_temp` saves at once.
- A save filters only what it writes. It never prunes the in-memory store.
- No sorting of the output, and no skipping of malformed lines: a bad entry
  aborts the load.
- `get_average` gives `0.0` for an unknown device and `None` for a known
  device with no reading in the window.
- The window has only a lower bound, `now - 24h`, and it is inclusive. So
  (`Readings.TwoReadingsBoundary`) a reading exactly 24 hours old still counts.

## Model

| member | source | states |
|---|---|---|
| Readings.RecentKeys | Averages.py:62-65 | the kept timestamps are exactly those at or after `now - 24h`, and they form a subsequence of the input, so their order is kept; distinct input gives distinct output |
| Readings.SubsequenceIn | Averages.py:62-65 | every element of a subsequence occurs in the sequence it was taken from |
| Readings.SubsequenceOrder | Averages.py:62-65 | two elements of a subsequence occur, in the same order, at two positions of the sequence it was taken from |
| Readings.Recent | Averages.py:61-67 | the filtered series holds exactly the entries of the series stamped at or after `now - 24h`, with their values |
| Readings.FilterLast24Hours | Averages.py:51-67 | the result is a sub-map of the device's series holding exactly its in-window entries; empty for an unknown device |
| Readings.Record | Averages.py:43-48 | after `add_temp`, the device maps `now` to the value; a new device is appended with a fresh series; every other device and every other timestamp of the device is unchanged |
| Readings.Round2 | Averages.py:78 | the result is a whole number of hundredths within 0.005 of the input, and on a tie the one with an even number of hundredths |
| Readings.NearestHundredthUnique | Averages.py:78 | at most one value is the nearest hundredth of a number with ties to even, so the contract of `Round2` fixes its result |
| Readings.Mean | Averages.py:78 | the mean of a non-empty series, taken once per reading, adds up to the total (`Total`) of its readings |
| Readings.Average | Averages.py:69-80 | `0.0` for an unknown device; for a known device `None` exactly when its window is empty, and otherwise the nearest hundredth (ties to even) of the mean of the in-window readings |
| Readings.Survivors | Averages.py:26-36 | the devices kept by a save are exactly those with an in-window reading; they form a subsequence of the store's devices, so store order is kept, and have no repeats |
| Readings.Pruned | Averages.py:26-41 | the store a save writes holds exactly the devices with an in-window reading, each with its filtered series |
| Readings.RecordedIsAveraged | Averages.py:69-80 | right after `add_temp(d, v)` at `now`, `get_average(d)` at `now` is a number, never `None` |
| Readings.RecordKeepsOtherAverages | Averages.py:43-49 | recording a reading for one device leaves every other device's average unchanged at every time |
| Readings.TotalWithin | Averages.py:78 | the sum (`Total`) of readings lying in `[lo, hi]` lies in `[n*lo, n*hi]` |
| Readings.TotalMeanWithin | Averages.py:78 | the sum of a non-empty list of readings in `[lo, hi]`, divided by their number, lies in `[lo, hi]` |
| Readings.SeriesMeanWithin | Averages.py:78 | the mean of readings in `[lo, hi]` lies in `[lo, hi]` |
| Readings.AverageWithin | Averages.py:74-79 | when every in-window reading lies in `[lo, hi]`, the average is a number in `[lo - 0.005, hi + 0.005]` |
| Readings.ExpiredDeviceReadsZeroAfterPruning | Averages.py:69-80 | a device with no in-window reading averages to `None` in memory but to `0.0` after the store is cut to what a save writes |
| Readings.RecentKeysTwice | Averages.py:62-65 | filtering timestamps twice is filtering once |
| Readings.RecentTwice | Averages.py:61-67 | the window filter is idempotent on a series |
| Readings.PrunedKeepsAverage | Averages.py:26-41 | a device that a save keeps has the same average in the saved store |
| Readings.SurvivorsAll | Averages.py:26-36 | when every device of a list has an in-window reading, a save keeps all of them, in order |
| Readings.PrunedTwice | Averages.py:26-41 | cutting the store to what a save keeps is idempotent |
| Readings.TwoReadings | Averages.py:43-48 | readings of 20.0 at `t0` and 22.0 an hour later, from an empty store, give a device with exactly those two entries in that order |
| Readings.RecentKeysOfTwo | Averages.py:62-65 | of two timestamps, the window keeps each one exactly when it is at or after `now - 24h`, in order |
| Readings.TwoReadingsWindow | Averages.py:61-67 | for a device holding those two readings, the window at `now` holds both, only the later one, or neither |
| Readings.Round2Hundredths | Averages.py:78 | rounding leaves a value that is already a whole number of hundredths unchanged |
| Readings.TotalOfTwo | Averages.py:78 | the sum over two timestamps is the sum of their two readings |
| Readings.TwoReadingsAverage | Averages.py:69-80 | for a device holding those two readings, the average two hours after `t0` is 21.0 |
| Readings.TwoReadingsBoundary | Averages.py:64 | for a device holding those two readings, 25 hours after `t0` the second reading is exactly on the inclusive bound and the average is 22.0 |
| Readings.TwoReadingsExpired | Averages.py:76-80 | for a device holding those two readings, 26 hours after `t0` both have expired and the average is `None` |
| TempsCodec.EntryText | Averages.py:38 | when the timestamp and temperature texts are tokens, the entry splits at its space into exactly those two |
| TempsCodec.Encode | Averages.py:26-41 | the text of a store is empty exactly when the store has no device, and otherwise ends with a line end |
| TempsCodec.SaveText | Averages.py:23-41 | the saved file is empty exactly when no device has an in-window reading, and otherwise ends with a line end |
| TempsCodec.LineTextsCons | Averages.py:26-41 | the lines of a device list are that device's line followed by the lines of the rest |
| TempsCodec.SavedFromStep | Averages.py:26-41 | what a save writes for a list of devices (`SavedFrom`) is the first device's line (`SavedLine`), present exactly when it has an in-window reading, followed by what it writes for the other devices |
| TempsCodec.SaveStep | Averages.py:26-41 | one turn of the save loop keeps "written so far, then what remains, is the saved text" (`Written`): a device with an in-window reading moves its line to the written part, and one without is skipped |
| TempsCodec.SavedFromAll | Averages.py:23-41 | the lines written for all devices are the saved text |
| TempsCodec.ParseEntry | Averages.py:20-21 | a parsed entry is `ts + " " + value` whose two tokens read back as the timestamp and temperature returned |
| TempsCodec.ParseEntryCases | Averages.py:20-21 | an entry parses exactly when it splits at `" "` into two parts whose timestamp and temperature read back; an entry that does not split into exactly two parts is `BadEntry` of the whole entry |
| TempsCodec.ParseEntries | Averages.py:19-21 | parsing the entries of a line keeps the series a valid ordered dictionary |
| TempsCodec.ParseEntriesErrors | Averages.py:19-21 | the entries of a line parse without error exactly when every one of them parses |
| TempsCodec.ParseEntriesStops | Averages.py:19-21 | a failed parse reports the error of the first entry that does not parse, and every entry before it parses: no bad entry is skipped |
| TempsCodec.LoadLine | Averages.py:17-21 | a loaded line leaves a valid store |
| TempsCodec.LoadLineErrors | Averages.py:17-21 | a line loads without error exactly when every entry after the device name parses |
| TempsCodec.LoadLines | Averages.py:16-21 | loading the lines in turn leaves a valid store |
| TempsCodec.LoadLinesErrors | Averages.py:16-21 | the lines load without error exactly when every entry of every line parses, so the first line with a bad entry stops the load |
| TempsCodec.Load | Averages.py:12-21 | loading a file leaves a valid store |
| TempsCodec.LoadErrors | Averages.py:12-21 | a file loads without error exactly when every entry of every line parses: one malformed entry aborts the load |
| TempsCodec.EntryRoundTrip | Averages.py:38 | a writable reading's entry parses back to that reading |
| TempsCodec.EntriesRoundTrip | Averages.py:37-40 | the entries of a series parse back to exactly its pairs, in order |
| TempsCodec.EntriesShape | Averages.py:37-41 | no entry contains `,` or a newline, and the last ends in a non-space |
| TempsCodec.LineAvoids | Averages.py:41 | a device's line (`LineText`) holds neither `\n` nor `\r` |
| TempsCodec.LineStripped | Averages.py:18 | a device's line, as written at Averages.py:41, is unchanged by the `strip()` of the load |
| TempsCodec.LineSplits | Averages.py:18 | a device's line, as written at Averages.py:41, splits at `,` into the device followed by its entries |
| TempsCodec.LineRoundTrip | Averages.py:17-21 | a device's line loads back as that device holding exactly its series |
| TempsCodec.LinesStep | Averages.py:16-21 | loading a device's line followed by more lines assigns that series and loads the rest |
| TempsCodec.LinesHead | Averages.py:16-21 | the lines of a list of devices load as the first device's series followed by the lines of the rest |
| TempsCodec.LinesRoundTrip | Averages.py:16-21 | the lines of a list of devices load back to exactly those devices and series, in order |
| TempsCodec.DecodeEncode | Averages.py:12-41 | decoding the encoding of an encodable store gives back that store, in the same order, without error |
| TempsCodec.PrunedEncodable | Averages.py:26-41 | what a save keeps of a writable store can be encoded |
| TempsCodec.SaveLoadRoundTrip | Averages.py:12-41 | reading back the saved file gives exactly the in-window, non-empty part of the store |
| TempsCodec.SaveTextAvoidsReturn | Averages.py:15-16 | a saved file of a writable store holds no `\r`, so text-mode reading splits it into the same lines as `Text.Lines` |
| TempsCodec.SaveLoadSaveSame | Averages.py:23-41 | saving, reloading and saving again at the same time writes the same text |
| TempsCodec.RecordedReadingIsSaved | Averages.py:43-49 | after `add_temp(d, v)` the saved file reads back with `d` holding `v` at `now` |
| Averages.TempsFile.Init | Averages.py:8-9 | a new `TempsFile` starts from an empty store |
| Averages.TempsFile.Open | Averages.py:8-10 | the constructor gives an empty store when there is no file, the loaded store when the load succeeds, and the load's error otherwise |
| Averages.TempsFile.LoadTemps | Averages.py:12-21 | with no file the store is unchanged and there is no error; otherwise the store and error are those `Load` gives |
| Averages.TempsFile.LoadText | Averages.py:16-21 | the loop over the lines, in place, ends in the store that `Load` gives, and the error is the one that stopped it |
| Averages.TempsFile.LoadLineInto | Averages.py:17-21 | one line's loop, in place, ends in the store and error that `LoadLine` gives |
| Averages.TempsFile.SaveTemps | Averages.py:23-41 | the file afterwards holds exactly the saved text of the store at `now` |
| Averages.TempsFile.GetAverage | Averages.py:69-80 | `0.0` for an unknown device; for a known device `None` exactly when all of its readings lie before `now - 24h` |
| Averages.TempsFile.AddTemp | Averages.py:43-49 | the store becomes `Record(old store, device, now, temp)` and the file its saved text |
| Agent.Named | main.py:104 | the kept names are exactly the non-empty device names: a subsequence of the list, so in its order, whose length is the list's length less the number of empty names, so every occurrence of a non-empty name is kept |
| Agent.Topics | main.py:104 | one topic `prefix/device` per non-empty device, in order, and a topic is in the list exactly when it is `prefix/d` for a non-empty device `d` of the list |
| Agent.ConfiguredDevices | main.py:21-27 | the topic `prefix/d` is subscribed exactly when the configuration has a `devices` list holding the non-empty name `d`; a configuration without `devices` subscribes to nothing |
| Agent.Registry | main.py:105 | a fresh record exactly for every non-empty device name |
| Agent.TopicsMatchRegistry | main.py:103-105 | a topic `prefix/d` is subscribed exactly when `d` has a record |
| Agent.DeviceOf | main.py:32 | a device name exactly when the topic contains `/`; it is the text between the first `/` and the next `/` or the end of the topic |
| Agent.TopicNamesDevice | main.py:32 | with no `/` in prefix or device, the topic `prefix/d` names `d` |
| Agent.SubscribedTopicsRoute | main.py:103-105 | with no `/` in prefix or device names, every subscribed topic names a device with a record |
| Agent.Missing | main.py:44-45 | the missing fields are exactly the required ones the message lacks |
| Agent.Check | main.py:30-63 | a message is accepted exactly when its topic names a registered device and its payload is an object whose three required fields are numeric; an accepted verdict carries those values; the rejections report the missing fields or the unknown device |
| Agent.BooleanReadingAccepted | main.py:56 | a boolean temperature passes the numeric check, so a message for a registered device is accepted with the temperature 1 or 0 |
| Agent.SubscribedReadingAccepted | main.py:30-63 | a message of three numbers on a subscribed topic is accepted |
| Agent.Agent.constructor | main.py:102-105 | the topics and records are those built from the configuration, and nothing is published yet |
| Agent.Agent.Update | main.py:65-77 | for a registered device, sets its readings, records the temperature and saves, sets its average to the store's average (never `None`), and publishes that average to `average/<device>` |
| Agent.Agent.HandleMessage | main.py:30-93 | a rejected message changes nothing. An accepted one sets that device's temperature, humidity and battery, records the temperature and saves, sets its average to the store's average (never `None`), and publishes that average to `average/<device>` |

## Left out

- MqttClient.py is not part of this model. It connects to the broker, subscribes and runs the network loop. Publishing is modelled as appending to `Agent.Agent.published`.
- The module-level plumbing of main.py is left out: `load_config`, the exit on a missing configuration, `loop_forever`, and the shutdown on KeyboardInterrupt with its final save. The start-up `alert/mqttagent` publish is left out too.
- Logging with `print` is left out.
- JSON decoding is left out. A payload is already parsed into `Agent.Payload`, which is not JSON, a non-object, or an object of tagged fields. `NaN` and `Infinity` values are not modelled.
- Real file I/O and `os.path.exists` are left out. The file is a string field. Text-mode newline translation is not modelled: `Text.Lines` ends lines at `\n` only, where the source also ends them at `\r` and `\r\n`. A file holding `\r` therefore loads differently here; by `TempsCodec.SaveTextAvoidsReturn`, no file a save writes from a store meeting the round-trip conditions holds one.
- The clock is left out. `datetime.now()` is the parameter `now`.
- Averages.TempsFile.SaveTemps: uses one `now` for every device. The source reads the clock again for each device (Averages.py:28).
- Agent.Agent.HandleMessage: uses one `now` for the reading and for its average. In the source, `add_temp` and `get_average` each read the clock, so the average is a number only if less than 24 hours pass between them.
- Timestamps are integers parsed when the file is loaded. The source keeps ISO strings and parses them lazily in `filter_last_24_hours` and `save_temps`. So a malformed timestamp fails the load here (`BadTimestamp`), but a later filter or save in the source.
- Python float arithmetic and `str(float)` formatting are left out. Readings.Round2 rounds the exact real half-to-even. It does not model the binary-float ties of Python's `round`.
- Agent.NumberOf: a boolean is stored as 1.0/0.0. In the source, `True`/`False` itself is stored, and is written to the file as `True`/`False`.
- The constructor calls with `config=` are left out. At main.py:109 and main.py:111 these calls raise `TypeError` in the source, because neither constructor accepts that argument.
- An exception raised inside `add_temp` (a failed write) is left out. So is the catch-all handler that would log it (main.py:91-93).
- Dev objects updated in place are modelled as values replaced in the `devs` map. No other reference to them exists in the source.
- The `devs` dictionary is modelled as a map. Its order only matters for the start-up printing, which is left out.
- Topic routing requires that neither the prefix nor the device names contain `/`. Otherwise `split("/")[1]` names only part of the device name. This is stated as a precondition of `Agent.SubscribedTopicsRoute`. It is not a claim about the broker.
