/** The text of temps.txt as `save_temps` writes it and `load_temps` reads it:
    one line per device, `device,<time> <value>,<time> <value>,...`. */
module TempsCodec {
  import opened Wrappers
  import opened Dicts
  import opened Text
  import opened Readings

  /** The text forms of timestamps and temperatures: `isoformat` and
      `fromisoformat` for the former, `str` and `float` for the latter.  A reader
      answers `None` where the Python function raises `ValueError`. */
  datatype Codec = Codec(
    showTime: int -> string, readTime: string -> Option<int>,
    showValue: real -> string, readValue: string -> Option<real>)

  /** Why a load stops; in the source each of these is a `ValueError` that aborts
      the load. */
  datatype LoadError =
    | BadEntry(entry: string)      // an entry that does not split into exactly two space-separated parts
    | BadValue(token: string)      // a temperature `float` cannot read
    | BadTimestamp(token: string)  // a timestamp the time reader cannot read

  /** A store after a load, and the error that stopped the load, if any. */
  datatype Loaded = Loaded(store: Store, error: Option<LoadError>)

  /** A series part-way through a line, and the error that stopped it, if any. */
  datatype Parsed = Parsed(series: Series, error: Option<LoadError>)

  // Writing

  /** `f"{timestamp} {temp}"`: when both text forms are tokens, the entry splits
      at its space into exactly those two. */
  function EntryText(c: Codec, t: int, v: real): (r: string)
    ensures IsToken(c.showTime(t)) && IsToken(c.showValue(v)) ==>
              Split(r, ' ') == [c.showTime(t), c.showValue(v)]
  {
    var ts, vs := c.showTime(t), c.showValue(v);
    assert IsToken(ts) && IsToken(vs) ==> Split(ts + " " + vs, ' ') == [ts, vs] by {
      if IsToken(ts) && IsToken(vs) {
        assert forall i :: 0 <= i < |ts| ==> !IsSpace(ts[i]);
        assert forall i :: 0 <= i < |vs| ==> !IsSpace(vs[i]);
        SplitNone(vs, ' ');
        SplitFirst(ts, ' ', vs);
      }
    }
    ts + " " + vs
  }

  /** The entries of `w` at the timestamps `ks`, in order. */
  function EntryTexts(c: Codec, w: Series, ks: seq<int>): seq<string>
    requires forall t :: t in ks ==> t in w.items
  {
    seq(|ks|, i requires 0 <= i < |ks| => EntryText(c, ks[i], w.items[ks[i]]))
  }

  /** `f"{device},{','.join(temp_entries)}"`, without its line end. */
  function LineText(c: Codec, device: string, w: Series): string
    requires w.Valid()
  {
    device + "," + Join(EntryTexts(c, w, w.keys), ',')
  }

  /** The lines of the devices `ks` of `s`, in order. */
  function LineTexts(c: Codec, s: Store, ks: seq<string>): seq<string>
    requires StoreValid(s) && forall d :: d in ks ==> d in s.items
  {
    seq(|ks|, i requires 0 <= i < |ks| => LineText(c, ks[i], s.items[ks[i]]))
  }

  /** The text holding one line per device of `s`, in store order: empty for an
      empty store, and otherwise ending with a line end. */
  function Encode(c: Codec, s: Store): (r: string)
    requires StoreValid(s)
    ensures r == [] <==> s.keys == []
    ensures r != [] ==> r[|r| - 1] == '\n'
  {
    Terminated(LineTexts(c, s, s.keys))
  }

  /** The text `save_temps` writes at time `now`: the lines of the devices that
      have an in-window reading, each holding its in-window readings. */
  function SaveText(c: Codec, s: Store, now: int): (r: string)
    requires StoreValid(s)
    ensures r == [] <==> forall d :: d in s.items ==> FilterLast24Hours(s, d, now).keys == []
    ensures r != [] ==> r[|r| - 1] == '\n'
  {
    var p := Pruned(s, now);
    assert p.keys != [] ==> p.keys[0] in p.items;
    assert forall d :: d in p.items ==> d in p.keys;
    Encode(c, p)
  }

  /** The lines `save_temps` writes for the devices `ks`, in order. */
  function SavedFrom(c: Codec, s: Store, ks: seq<string>, now: int): string
    requires StoreValid(s)
  {
    var p := Pruned(s, now);
    Terminated(LineTexts(c, p, Survivors(s, ks, now)))
  }

  lemma LineTextsCons(c: Codec, s: Store, d: string, rest: seq<string>)
    requires StoreValid(s) && d in s.items && forall k :: k in rest ==> k in s.items
    ensures LineTexts(c, s, [d] + rest) == [LineText(c, d, s.items[d])] + LineTexts(c, s, rest)
  {
  }

  /** What `save_temps` writes for device `d`: its line of in-window readings,
      or nothing when it has none. */
  function SavedLine(c: Codec, s: Store, d: string, now: int): string
    requires StoreValid(s) && d in s.items
  {
    var w := Recent(s.items[d], now);
    if w.keys != [] then LineText(c, d, w) + "\n" else []
  }

  /** `save_temps` writes the line of the first device of `ks`, if any, then the
      lines of the other devices. */
  lemma SavedFromStep(c: Codec, s: Store, ks: seq<string>, now: int)
    requires StoreValid(s) && ks != [] && ks[0] in s.items
    ensures SavedFrom(c, s, ks, now) == SavedLine(c, s, ks[0], now) + SavedFrom(c, s, ks[1..], now)
  {
    var p := Pruned(s, now);
    var rest := Survivors(s, ks[1..], now);
    var w := Recent(s.items[ks[0]], now);
    SurvivorsStep(s, ks, now);
    if w.keys != [] {
      LineTextsCons(c, p, ks[0], rest);
      TerminatedCons(LineText(c, ks[0], w), LineTexts(c, p, rest));
    }
  }

  /** Text written so far, then a line, then the rest, in either grouping. */
  lemma Regroup(text: string, line: string, after: string, goal: string)
    requires text + (line + after) == goal
    ensures (text + line) + after == goal
  {
  }

  /** `text` has been written and the lines of the devices `ks` remain to be
      written, out of the whole of what `save_temps` writes at `now`. */
  ghost predicate Written(c: Codec, s: Store, now: int, text: string, ks: seq<string>)
    requires StoreValid(s)
  {
    text + SavedFrom(c, s, ks, now) == SavedFrom(c, s, s.keys, now)
  }

  /** One turn of `save_temps`' loop over the devices `ks` still to be visited:
      when the first device has an in-window reading, its line moves from what
      remains to be written to what has been written; otherwise what remains is
      the lines of the other devices. */
  lemma SaveStep(c: Codec, s: Store, ks: seq<string>, now: int, text: string)
    requires StoreValid(s) && ks != [] && ks[0] in s.items
    requires Written(c, s, now, text, ks)
    ensures var w := Recent(s.items[ks[0]], now);
      w.keys != [] ==> Written(c, s, now, text + (LineText(c, ks[0], w) + "\n"), ks[1..])
    ensures Recent(s.items[ks[0]], now).keys == [] ==> Written(c, s, now, text, ks[1..])
  {
    SavedFromStep(c, s, ks, now);
    var line := SavedLine(c, s, ks[0], now);
    Regroup(text, line, SavedFrom(c, s, ks[1..], now), SavedFrom(c, s, s.keys, now));
    if line == [] {
      assert text + line == text;
    }
  }

  /** The lines `save_temps` writes for all the devices are the saved text. */
  lemma SavedFromAll(c: Codec, s: Store, now: int)
    requires StoreValid(s)
    ensures SavedFrom(c, s, s.keys, now) == SaveText(c, s, now)
  {
  }

  // Reading

  /** `timestamp, temperature = entry.split(" ")` followed by `float(temperature)`;
      the timestamp text is read here too, as timestamps are numbers in this model. */
  function ParseEntry(c: Codec, entry: string): (r: Result<(int, real), LoadError>)
    ensures r.Ok? ==> exists ts, vs :: entry == ts + " " + vs && c.readTime(ts) == Some(r.value.0)
                                        && c.readValue(vs) == Some(r.value.1)
  {
    var parts := Split(entry, ' ');
    if |parts| != 2 then Err(BadEntry(entry))
    else if c.readValue(parts[1]).None? then Err(BadValue(parts[1]))
    else if c.readTime(parts[0]).None? then Err(BadTimestamp(parts[0]))
    else
      assert Join(parts, ' ') == parts[0] + " " + parts[1] by {
        assert parts[1..] == [parts[1]];
      }
      Ok((c.readTime(parts[0]).value, c.readValue(parts[1]).value))
  }

  /** `self.temps[device][timestamp] = float(temperature)` for each entry in turn,
      stopping at the first entry that fails. */
  function ParseEntries(c: Codec, w: Series, entries: seq<string>): (r: Parsed)
    requires w.Valid()
    ensures r.series.Valid()
    decreases |entries|
  {
    if entries == [] then Parsed(w, None)
    else match ParseEntry(c, entries[0])
      case Err(e) => Parsed(w, Some(e))
      case Ok(p) => ParseEntries(c, w.Put(p.0, p.1), entries[1..])
  }

  /** Every entry of `entries` parses. */
  ghost predicate EntriesParse(c: Codec, entries: seq<string>) {
    forall i :: 0 <= i < |entries| ==> ParseEntry(c, entries[i]).Ok?
  }

  lemma EntriesParseCons(c: Codec, entries: seq<string>)
    requires entries != []
    ensures EntriesParse(c, entries) <==> ParseEntry(c, entries[0]).Ok? && EntriesParse(c, entries[1..])
  {
    assert forall i :: 0 < i < |entries| ==> entries[i] == entries[1..][i - 1];
  }

  /** An entry parses exactly when it splits at its space into two parts whose
      timestamp and temperature read back; one that does not split into exactly
      two parts is reported as a whole. */
  lemma ParseEntryCases(c: Codec, entry: string)
    ensures var parts := Split(entry, ' ');
      ParseEntry(c, entry).Ok? <==> |parts| == 2 && c.readTime(parts[0]).Some? && c.readValue(parts[1]).Some?
    ensures |Split(entry, ' ')| != 2 ==> ParseEntry(c, entry) == Err(BadEntry(entry))
  {
  }

  /** The entries parse without error exactly when every one of them parses. */
  lemma {:induction false} ParseEntriesErrors(c: Codec, w: Series, entries: seq<string>)
    requires w.Valid()
    ensures ParseEntries(c, w, entries).error.None? <==> EntriesParse(c, entries)
    decreases |entries|
  {
    if entries != [] {
      EntriesParseCons(c, entries);
      var e := ParseEntry(c, entries[0]);
      if e.Ok? {
        ParseEntriesErrors(c, w.Put(e.value.0, e.value.1), entries[1..]);
      }
    }
  }

  /** A first failure at `i` among the entries after a parsing entry is a first
      failure at `i + 1` among all of them. */
  lemma FirstFailureCons(c: Codec, entries: seq<string>, i: nat, e: LoadError)
    requires entries != [] && ParseEntry(c, entries[0]).Ok?
    requires i < |entries| - 1 && ParseEntry(c, entries[1..][i]) == Err(e)
    requires forall j :: 0 <= j < i ==> ParseEntry(c, entries[1..][j]).Ok?
    ensures ParseEntry(c, entries[i + 1]) == Err(e)
    ensures forall j :: 0 <= j < i + 1 ==> ParseEntry(c, entries[j]).Ok?
  {
    assert entries[i + 1] == entries[1..][i];
    forall j | 0 < j < i + 1
      ensures ParseEntry(c, entries[j]).Ok?
    {
      assert entries[j] == entries[1..][j - 1];
    }
  }

  /** A failed parse reports the first entry that does not parse, and every
      entry before it parses: a bad entry is never skipped. */
  lemma {:induction false} ParseEntriesStops(c: Codec, w: Series, entries: seq<string>)
    requires w.Valid()
    ensures var r := ParseEntries(c, w, entries);
      r.error.Some? ==> exists i :: 0 <= i < |entries| && ParseEntry(c, entries[i]) == Err(r.error.value)
                                    && forall j :: 0 <= j < i ==> ParseEntry(c, entries[j]).Ok?
    decreases |entries|
  {
    if entries != [] {
      var e := ParseEntry(c, entries[0]);
      if e.Err? {
        assert ParseEntries(c, w, entries).error == Some(e.error);
      } else {
        var w' := w.Put(e.value.0, e.value.1);
        var r := ParseEntries(c, w', entries[1..]);
        assert ParseEntries(c, w, entries) == r;
        ParseEntriesStops(c, w', entries[1..]);
        if r.error.Some? {
          var i :| 0 <= i < |entries| - 1 && ParseEntry(c, entries[1..][i]) == Err(r.error.value)
                   && forall j :: 0 <= j < i ==> ParseEntry(c, entries[1..][j]).Ok?;
          FirstFailureCons(c, entries, i, r.error.value);
        }
      }
    }
  }

  /** Every entry of the line parses. */
  ghost predicate LineParses(c: Codec, line: string) {
    EntriesParse(c, Split(Strip(line), ',')[1..])
  }

  /** Every entry of every line parses. */
  ghost predicate LinesParse(c: Codec, lines: seq<string>) {
    forall i :: 0 <= i < |lines| ==> LineParses(c, lines[i])
  }

  lemma LinesParseCons(c: Codec, lines: seq<string>)
    requires lines != []
    ensures LinesParse(c, lines) <==> LineParses(c, lines[0]) && LinesParse(c, lines[1..])
  {
    var rest := lines[1..];
    if LineParses(c, lines[0]) && LinesParse(c, rest) {
      forall i | 0 < i < |lines|
        ensures LineParses(c, lines[i])
      {
        assert lines[i] == rest[i - 1];
      }
    }
    if LinesParse(c, lines) {
      forall i | 0 <= i < |rest|
        ensures LineParses(c, rest[i])
      {
        assert rest[i] == lines[i + 1];
      }
    }
  }

  /** One line of the file: `device, *temp_list = line.strip().split(",")`, then
      `self.temps[device] = {}` and the entries.  A later line for the same device
      replaces its series; a blank line gives the device `""` an empty series. */
  function LoadLine(c: Codec, s: Store, line: string): (r: Loaded)
    requires StoreValid(s)
    ensures StoreValid(r.store)
  {
    var parts := Split(Strip(line), ',');
    var p := ParseEntries(c, Empty(), parts[1..]);
    Loaded(s.Put(parts[0], p.series), p.error)
  }

  /** The lines in turn, stopping at the first that fails. */
  function LoadLines(c: Codec, s: Store, lines: seq<string>): (r: Loaded)
    requires StoreValid(s)
    ensures StoreValid(r.store)
    decreases |lines|
  {
    if lines == [] then Loaded(s, None)
    else
      var r := LoadLine(c, s, lines[0]);
      if r.error.Some? then r else LoadLines(c, r.store, lines[1..])
  }

  /** `load_temps` over a file holding `text`, starting from the store `s`. */
  function Load(c: Codec, s: Store, text: string): (r: Loaded)
    requires StoreValid(s)
    ensures StoreValid(r.store)
  {
    LoadLines(c, s, Lines(text))
  }

  /** A line loads without error exactly when every entry after the device name
      parses. */
  lemma LoadLineErrors(c: Codec, s: Store, line: string)
    requires StoreValid(s)
    ensures LoadLine(c, s, line).error.None? <==> LineParses(c, line)
  {
    ParseEntriesErrors(c, Empty(), Split(Strip(line), ',')[1..]);
  }

  /** The lines load without error exactly when every entry of every line parses:
      the first line with a bad entry stops the load. */
  lemma {:induction false} LoadLinesErrors(c: Codec, s: Store, lines: seq<string>)
    requires StoreValid(s)
    ensures LoadLines(c, s, lines).error.None? <==> LinesParse(c, lines)
    decreases |lines|
  {
    if lines != [] {
      var r := LoadLine(c, s, lines[0]);
      assert LoadLines(c, s, lines) == if r.error.Some? then r else LoadLines(c, r.store, lines[1..]);
      LinesParseCons(c, lines);
      LoadLineErrors(c, s, lines[0]);
      if r.error.None? {
        LoadLinesErrors(c, r.store, lines[1..]);
      }
    }
  }

  /** A file loads without error exactly when every entry of every line parses. */
  lemma LoadErrors(c: Codec, s: Store, text: string)
    requires StoreValid(s)
    ensures Load(c, s, text).error.None? <==> LinesParse(c, Lines(text))
  {
    LoadLinesErrors(c, s, Lines(text));
  }

  // The round trip

  /** A text form that holds neither the entry separator `,` nor whitespace, so
      that it survives `split(",")`, `split(" ")` and `strip()`. */
  predicate IsToken(s: string) {
    |s| > 0 && forall i :: 0 <= i < |s| ==> s[i] != ',' && !IsSpace(s[i])
  }

  /** A device name that survives being written at the head of a line and read
      back: no `,`, no line end (neither `\n` nor the `\r` that text-mode
      reading also ends a line at), and no leading whitespace for `strip()` to
      remove. */
  predicate IsDeviceName(d: string) {
    ',' !in d && '\n' !in d && '\r' !in d && (d == [] || !IsSpace(d[0]))
  }

  /** The reading at `t` of value `v` is written as two tokens that read back
      as `t` and `v`. */
  ghost predicate Writable(c: Codec, t: int, v: real) {
    && IsToken(c.showTime(t)) && c.readTime(c.showTime(t)) == Some(t)
    && IsToken(c.showValue(v)) && c.readValue(c.showValue(v)) == Some(v)
  }

  /** Every device name and reading of `s` can be written and read back. */
  ghost predicate StoreWritable(c: Codec, s: Store) {
    && StoreValid(s)
    && (forall d :: d in s.items ==> IsDeviceName(d))
    && (forall d, t :: d in s.items && t in s.items[d].items ==> Writable(c, t, s.items[d].items[t]))
  }

  /** `s` can be encoded and decoded again: writable, and no device has an empty
      series (an empty series would give a line `device,` that does not load). */
  ghost predicate Encodable(c: Codec, s: Store) {
    StoreWritable(c, s) && forall d :: d in s.items ==> s.items[d].keys != []
  }

  /** Every reading of a device of a writable store is writable. */
  lemma SeriesWritable(c: Codec, s: Store, d: string)
    requires StoreWritable(c, s) && d in s.items
    ensures forall t :: t in s.items[d].items ==> Writable(c, t, s.items[d].items[t])
  {
  }

  lemma EntryRoundTrip(c: Codec, t: int, v: real)
    requires Writable(c, t, v)
    ensures ParseEntry(c, EntryText(c, t, v)) == Ok((t, v))
  {
    var ts, vs := c.showTime(t), c.showValue(v);
    SplitNone(vs, ' ');
    SplitFirst(ts, ' ', vs);
  }

  lemma {:induction false} EntriesRoundTrip(c: Codec, acc: Series, w: Series, ks: seq<int>)
    requires acc.Valid()
    requires forall t :: t in ks ==> t in w.items && Writable(c, t, w.items[t])
    ensures ParseEntries(c, acc, EntryTexts(c, w, ks)) == Parsed(PutAll(acc, PairsOf(w.items, ks)), None)
    decreases |ks|
  {
    var es := EntryTexts(c, w, ks);
    if ks != [] {
      EntryRoundTrip(c, ks[0], w.items[ks[0]]);
      assert es[1..] == EntryTexts(c, w, ks[1..]);
      EntriesRoundTrip(c, acc.Put(ks[0], w.items[ks[0]]), w, ks[1..]);
    }
  }

  /** No entry holds a `,` or a newline, and the last one ends in a token. */
  lemma EntriesShape(c: Codec, w: Series)
    requires w.Valid() && w.keys != []
    requires forall t :: t in w.items ==> Writable(c, t, w.items[t])
    ensures var es := EntryTexts(c, w, w.keys);
      && (forall i :: 0 <= i < |es| ==> ',' !in es[i] && '\n' !in es[i])
      && (var last := es[|es| - 1]; last != [] && !IsSpace(last[|last| - 1]))
  {
    var es := EntryTexts(c, w, w.keys);
    forall i | 0 <= i < |es|
      ensures ',' !in es[i] && '\n' !in es[i]
    {
      var t := w.keys[i];
      assert Writable(c, t, w.items[t]);
      assert !IsSpace(',') && IsSpace('\n');
    }
  }

  /** A name, a `,` and entries joined by `,`, none of which holds the
      character `ch`, holds no `ch`. */
  lemma JoinedAvoids(d: string, es: seq<string>, ch: char)
    requires ch != ',' && ch !in d
    requires forall i :: 0 <= i < |es| ==> ch !in es[i]
    ensures ch !in d + [','] + Join(es, ',')
  {
    JoinAvoids(es, ',', ch);
  }

  /** A name that does not start with whitespace, a `,` and entries joined by
      `,`, the last of which ends in a non-space, is its own `strip()`. */
  lemma JoinedStripped(d: string, es: seq<string>)
    requires d == [] || !IsSpace(d[0])
    requires es != [] && var last := es[|es| - 1]; last != [] && !IsSpace(last[|last| - 1])
    ensures Strip(d + [','] + Join(es, ',')) == d + [','] + Join(es, ',')
  {
    var j := Join(es, ',');
    var line := d + [','] + j;
    JoinEnds(es, ',');
    assert line[|line| - 1] == j[|j| - 1];
    assert line[0] == if d == [] then ',' else d[0];
    StripTrimmed(line);
  }

  /** A name and entries without `,`, joined by `,`, split back into the name
      followed by the entries. */
  lemma JoinedSplits(d: string, es: seq<string>)
    requires ',' !in d && es != []
    requires forall i :: 0 <= i < |es| ==> ',' !in es[i]
    ensures Split(d + [','] + Join(es, ','), ',') == [d] + es
  {
    SplitFirst(d, ',', Join(es, ','));
    SplitJoin(es, ',');
  }

  /** A device's line holds neither line end, `\n` or `\r`, so it stays one
      line of the file however the file is read. */
  lemma LineAvoids(c: Codec, d: string, w: Series, ch: char)
    requires w.Valid() && IsDeviceName(d) && (ch == '\n' || ch == '\r')
    requires forall t :: t in w.items ==> Writable(c, t, w.items[t])
    ensures ch !in LineText(c, d, w)
  {
    var es := EntryTexts(c, w, w.keys);
    forall i | 0 <= i < |es|
      ensures ch !in es[i]
    {
      var t := w.keys[i];
      assert Writable(c, t, w.items[t]);
      assert IsSpace(ch) && ch != ' ';
    }
    JoinedAvoids(d, es, ch);
  }

  /** A device's line has nothing for `strip()` to remove. */
  lemma LineStripped(c: Codec, d: string, w: Series)
    requires w.Valid() && w.keys != [] && IsDeviceName(d)
    requires forall t :: t in w.items ==> Writable(c, t, w.items[t])
    ensures Strip(LineText(c, d, w)) == LineText(c, d, w)
  {
    var es := EntryTexts(c, w, w.keys);
    EntriesShape(c, w);
    JoinedStripped(d, es);
  }

  /** A device's line splits at `,` into the device name followed by the
      entries. */
  lemma LineSplits(c: Codec, d: string, w: Series)
    requires w.Valid() && w.keys != [] && IsDeviceName(d)
    requires forall t :: t in w.items ==> Writable(c, t, w.items[t])
    ensures Split(LineText(c, d, w), ',') == [d] + EntryTexts(c, w, w.keys)
  {
    var es := EntryTexts(c, w, w.keys);
    EntriesShape(c, w);
    JoinedSplits(d, es);
  }

  /** A device's line reads back as that device holding exactly its series. */
  lemma LineRoundTrip(c: Codec, s: Store, d: string, w: Series)
    requires StoreValid(s) && w.Valid() && w.keys != [] && IsDeviceName(d)
    requires forall t :: t in w.items ==> Writable(c, t, w.items[t])
    ensures '\n' !in LineText(c, d, w)
    ensures LoadLine(c, s, LineText(c, d, w)) == Loaded(s.Put(d, w), None)
  {
    var es := EntryTexts(c, w, w.keys);
    LineAvoids(c, d, w, '\n');
    LineStripped(c, d, w);
    LineSplits(c, d, w);
    assert ([d] + es)[1..] == es;
    EntriesRoundTrip(c, Empty(), w, w.keys);
    FromPairs(w);
  }

  /** Loading a device's line followed by other lines assigns that device its
      series, then loads the other lines. */
  lemma LinesStep(c: Codec, acc: Store, d: string, w: Series, rest: seq<string>)
    requires StoreValid(acc) && w.Valid() && w.keys != [] && IsDeviceName(d)
    requires forall t :: t in w.items ==> Writable(c, t, w.items[t])
    ensures LoadLines(c, acc, [LineText(c, d, w)] + rest) == LoadLines(c, acc.Put(d, w), rest)
  {
    var ls := [LineText(c, d, w)] + rest;
    LineRoundTrip(c, acc, d, w);
    assert ls[0] == LineText(c, d, w);
    assert ls[1..] == rest;
  }

  /** The lines of the devices `ks` load as the first device's series followed
      by the lines of the others. */
  lemma LinesHead(c: Codec, acc: Store, s: Store, ks: seq<string>)
    requires StoreValid(acc) && Encodable(c, s) && ks != []
    requires forall d :: d in ks ==> d in s.items
    ensures LoadLines(c, acc, LineTexts(c, s, ks))
         == LoadLines(c, acc.Put(ks[0], s.items[ks[0]]), LineTexts(c, s, ks[1..]))
  {
    var d, w := ks[0], s.items[ks[0]];
    assert ks == [d] + ks[1..];
    LineTextsCons(c, s, d, ks[1..]);
    SeriesWritable(c, s, d);
    LinesStep(c, acc, d, w, LineTexts(c, s, ks[1..]));
  }

  lemma {:induction false} LinesRoundTrip(c: Codec, acc: Store, s: Store, ks: seq<string>)
    requires StoreValid(acc) && Encodable(c, s)
    requires forall d :: d in ks ==> d in s.items
    ensures LoadLines(c, acc, LineTexts(c, s, ks)) == Loaded(PutAll(acc, PairsOf(s.items, ks)), None)
    decreases |ks|
  {
    if ks != [] {
      LinesHead(c, acc, s, ks);
      LinesRoundTrip(c, acc.Put(ks[0], s.items[ks[0]]), s, ks[1..]);
      PutAllPairsStep(acc, s.items, ks);
    }
  }

  /** Decoding the encoding of a store gives back that store: the same devices
      in the same order, each with the same readings in the same order. */
  lemma DecodeEncode(c: Codec, s: Store)
    requires Encodable(c, s)
    ensures Load(c, Empty(), Encode(c, s)) == Loaded(s, None)
  {
    var ls := LineTexts(c, s, s.keys);
    forall i | 0 <= i < |ls|
      ensures '\n' !in ls[i]
    {
      LineRoundTrip(c, Empty(), s.keys[i], s.items[s.keys[i]]);
    }
    LinesTerminated(ls);
    LinesRoundTrip(c, Empty(), s, s.keys);
    FromPairs(s);
  }

  /** What a save keeps of a writable store can be encoded. */
  lemma PrunedEncodable(c: Codec, s: Store, now: int)
    requires StoreWritable(c, s)
    ensures Encodable(c, Pruned(s, now))
  {
    var p := Pruned(s, now);
    forall d, t | d in p.items && t in p.items[d].items
      ensures Writable(c, t, p.items[d].items[t])
    {
      assert p.items[d].items[t] == s.items[d].items[t];
    }
  }

  /** Reading back the text `save_temps` wrote gives exactly the in-window part
      of the store: the devices that had an in-window reading, in store order,
      each with its in-window readings in their order. */
  lemma SaveLoadRoundTrip(c: Codec, s: Store, now: int)
    requires StoreWritable(c, s)
    ensures Load(c, Empty(), SaveText(c, s, now)) == Loaded(Pruned(s, now), None)
  {
    PrunedEncodable(c, s, now);
    DecodeEncode(c, Pruned(s, now));
  }

  /** A saved file holds no `\r`, so reading it in text mode, which also ends a
      line at `\r`, gives the same lines as ending them at `\n` alone. */
  lemma SaveTextAvoidsReturn(c: Codec, s: Store, now: int)
    requires StoreWritable(c, s)
    ensures '\r' !in SaveText(c, s, now)
  {
    var p := Pruned(s, now);
    PrunedEncodable(c, s, now);
    var ls := LineTexts(c, p, p.keys);
    forall i | 0 <= i < |ls|
      ensures '\r' !in ls[i]
    {
      var d := p.keys[i];
      SeriesWritable(c, p, d);
      LineAvoids(c, d, p.items[d], '\r');
    }
    TerminatedAvoids(ls, '\r');
  }

  /** Saving, reading the file back and saving again at the same time writes the
      same text. */
  lemma SaveLoadSaveSame(c: Codec, s: Store, now: int)
    requires StoreWritable(c, s)
    ensures var reloaded := Load(c, Empty(), SaveText(c, s, now));
      reloaded.error.None? && SaveText(c, reloaded.store, now) == SaveText(c, s, now)
  {
    SaveLoadRoundTrip(c, s, now);
    PrunedTwice(s, now);
  }

  /** After `add_temp(device, value)` at `now`, the saved file holds that reading:
      reading it back gives the device with `value` at `now`. */
  lemma RecordedReadingIsSaved(c: Codec, s: Store, device: string, now: int, value: real)
    requires StoreWritable(c, s) && IsDeviceName(device) && Writable(c, now, value)
    ensures var back := Load(c, Empty(), SaveText(c, Record(s, device, now, value), now));
      && back.error.None? && device in back.store.items
      && now in back.store.items[device].items && back.store.items[device].items[now] == value
  {
    var r := Record(s, device, now, value);
    assert StoreWritable(c, r) by {
      forall d, t | d in r.items && t in r.items[d].items
        ensures Writable(c, t, r.items[d].items[t])
      {
        if d != device || t != now {
          assert r.items[d].items[t] == s.items[d].items[t];
        }
      }
    }
    SaveLoadRoundTrip(c, r, now);
    assert now in FilterLast24Hours(r, device, now).items;
  }
}
