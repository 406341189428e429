/** `TempsFile` (Averages.py): the readings of every device, kept in memory and
    written to temps.txt after every new reading. */
module Averages {
  import opened Wrappers
  import opened Dicts
  import opened Text
  import opened Readings
  import opened TempsCodec

  class TempsFile {
    /** `self.temps`: device -> (timestamp -> temperature). */
    var temps: Store
    /** The contents of temps.txt; `None` while the file does not exist. */
    var file: Option<string>
    /** The text forms of timestamps and temperatures. */
    const codec: Codec

    ghost predicate Valid()
      reads this
    {
      StoreValid(temps)
    }

    /** `self.temps = {}`, before the file is read. */
    constructor Init(disk: Option<string>, codec: Codec)
      ensures Valid() && temps == Empty() && file == disk && this.codec == codec
    {
      temps := Empty();
      file := disk;
      this.codec := codec;
    }

    /** `TempsFile()`: an empty store loaded from the file if there is one.  The
        constructor raises, and no store comes into being, when the load fails. */
    static method Open(disk: Option<string>, codec: Codec) returns (r: Result<TempsFile, LoadError>)
      ensures disk.None? ==> r.Ok? && r.value.temps == Empty()
      ensures disk.Some? ==> var loaded := Load(codec, Empty(), disk.value);
        && (loaded.error.None? ==> r.Ok? && r.value.temps == loaded.store)
        && (loaded.error.Some? ==> r == Err(loaded.error.value))
      ensures r.Ok? ==> fresh(r.value) && r.value.Valid() && r.value.file == disk && r.value.codec == codec
    {
      var t := new TempsFile.Init(disk, codec);
      ghost var loaded := if disk.Some? then Load(codec, Empty(), disk.value) else Loaded(Empty(), None);
      var err := t.LoadTemps();
      assert Loaded(t.temps, err) == loaded;
      if err.Some? {
        return Err(err.value);
      }
      return Ok(t);
    }

    /** `load_temps`: reads the file, if there is one, into `temps`. */
    method LoadTemps() returns (err: Option<LoadError>)
      requires Valid()
      modifies this`temps
      ensures Valid()
      ensures file.None? ==> temps == old(temps) && err.None?
      ensures file.Some? ==> Loaded(temps, err) == Load(codec, old(temps), file.value)
    {
      if file.None? {
        return None;
      }
      err := LoadText(file.value);
    }

    /** The loop of `load_temps` over the lines of `text`, a line replacing the
        series of its device.  The first malformed entry stops the load,
        leaving what was read before it in place. */
    method LoadText(text: string) returns (err: Option<LoadError>)
      requires Valid()
      modifies this`temps
      ensures Valid()
      ensures Loaded(temps, err) == Load(codec, old(temps), text)
    {
      ghost var goal := Load(codec, temps, text);
      var rest := Lines(text);
      while rest != []
        invariant StoreValid(temps)
        invariant LoadLines(codec, temps, rest) == goal
      {
        err := LoadLineInto(rest[0]);
        if err.Some? {
          return;
        }
        rest := rest[1..];
      }
      return None;
    }

    /** The body of `load_temps`' loop for one line: `self.temps[device] = {}`,
        then each entry in turn into `self.temps[device]`. */
    method LoadLineInto(line: string) returns (err: Option<LoadError>)
      requires Valid()
      modifies this`temps
      ensures Valid()
      ensures Loaded(temps, err) == LoadLine(codec, old(temps), line)
    {
      var parts := Split(Strip(line), ',');
      var device := parts[0];
      var entries := parts[1..];
      ghost var base := temps;
      ghost var goal := ParseEntries(codec, Empty(), entries);
      var series: Series := Empty();
      temps := temps.Put(device, series);
      var rest := entries;
      while rest != []
        invariant series.Valid()
        invariant temps == base.Put(device, series)
        invariant ParseEntries(codec, series, rest) == goal
      {
        var entry := ParseEntry(codec, rest[0]);
        if entry.Err? {
          PutSeries(base, device, series);
          return Some(entry.error);
        }
        var next := series.Put(entry.value.0, entry.value.1);
        PutTwice(base, device, series, next);
        series := next;
        temps := temps.Put(device, series);
        rest := rest[1..];
      }
      PutSeries(base, device, series);
      return None;
    }

    /** `save_temps`: rewrites the file with one line per device that has a
        reading in the 24 hours before `now`, holding those readings.  Devices
        with none are left out of the file; `temps` itself is not pruned. */
    method SaveTemps(now: int)
      requires Valid()
      modifies this`file
      ensures file == Some(SaveText(codec, temps, now))
    {
      var s := temps;
      var text := "";
      var devices := s.keys;
      assert Written(codec, s, now, text, devices);
      while devices != []
        invariant forall d :: d in devices ==> d in s.items
        invariant Written(codec, s, now, text, devices)
      {
        var device := devices[0];
        var filtered := Recent(s.items[device], now);
        SaveStep(codec, s, devices, now, text);
        if filtered.keys != [] {
          text := text + (LineText(codec, device, filtered) + "\n");
        }
        devices := devices[1..];
      }
      assert text + [] == text;
      SavedFromAll(codec, s, now);
      file := Some(text);
    }

    /** `get_average(device)` at time `now`; it reads `temps` and changes nothing.
        It is `None` exactly for a known device whose readings all lie before the
        window. */
    function GetAverage(device: string, now: int): (r: Option<real>)
      reads this
      requires Valid()
      ensures device !in temps.items ==> r == Some(0.0)
      ensures device in temps.items ==>
        (r.None? <==> forall t :: t in temps.items[device].items ==> t < now - Day)
    {
      Average(temps, device, now)
    }

    /** `add_temp(device, temp)`: stamps the reading with `now`, stores it (a new
        device first gets an empty series) and saves at once. */
    method AddTemp(device: string, temp: real, now: int)
      requires Valid()
      modifies this
      ensures Valid()
      ensures temps == Record(old(temps), device, now, temp)
      ensures file == Some(SaveText(codec, temps, now))
    {
      RecordInTwoSteps(temps, device, now, temp);
      if device !in temps.items {
        temps := temps.Put(device, Empty());
      }
      temps := temps.Put(device, temps.items[device].Put(now, temp));
      SaveTemps(now);
    }
  }
}
