/** main.py: the device list and subscribed topics built from the
    configuration, and `handle_message`, which checks an incoming reading,
    updates the device's record, stores the temperature and publishes the
    device's average. */
module Agent {
  import opened Wrappers
  import opened Text
  import opened Readings
  import opened TempsCodec
  import opened Averages
  import opened Devs
  import Dicts

  // Configuration

  /** The keys of config.json this part reads; `None` where a key is absent. */
  datatype Config = Config(devices: Option<seq<string>>, topicsPrefix: Option<string>)

  /** `load_devices(config)`: the configured device list, or `[]` when there is
      no configuration or it has no `devices` key. */
  function LoadDevices(config: Option<Config>): seq<string> {
    if config.Some? && config.value.devices.Some? then config.value.devices.value else []
  }

  const DefaultPrefix: string := "zigbee2mqtt"

  /** `config.get("topics_prefix", "zigbee2mqtt")` */
  function Prefix(config: Config): string {
    config.topicsPrefix.GetOr(DefaultPrefix)
  }

  /** The non-empty device names of `devices`, in order: a subsequence of
      `devices` that leaves out exactly its empty names, every occurrence of
      them, and keeps every occurrence of the others. */
  function Named(devices: seq<string>): (r: seq<string>)
    ensures forall d :: d in r <==> d in devices && d != []
    ensures Subsequence(r, devices)
    ensures |r| == |devices| - multiset(devices)[[]]
    decreases |devices|
  {
    if devices == [] then []
    else
      var rest := Named(devices[1..]);
      assert multiset(devices) == multiset{devices[0]} + multiset(devices[1..]) by {
        assert devices == [devices[0]] + devices[1..];
      }
      if devices[0] != [] then
        assert ([devices[0]] + rest)[1..] == rest;
        [devices[0]] + rest
      else rest
  }

  /** `[f"{topics_prefix}/{device}" for device in devices if device]`: one topic
      per non-empty device name, in order, and no other topics. */
  function Topics(prefix: string, devices: seq<string>): (r: seq<string>)
    ensures |r| == |Named(devices)|
    ensures forall i :: 0 <= i < |r| ==> r[i] == prefix + "/" + Named(devices)[i]
    ensures forall t :: t in r <==> exists d :: d in devices && d != [] && t == prefix + "/" + d
  {
    var names := Named(devices);
    var r := seq(|names|, i requires 0 <= i < |names| => prefix + "/" + names[i]);
    assert forall d :: d in devices && d != [] ==> prefix + "/" + d in r by {
      forall d | d in devices && d != []
        ensures prefix + "/" + d in r
      {
        var i :| 0 <= i < |names| && names[i] == d;
        assert r[i] == prefix + "/" + d;
      }
    }
    forall i | 0 <= i < |names|
      ensures names[i] in devices && names[i] != []
    {
      assert names[i] in names;
    }
    r
  }

  /** `devs` after `devs.update({device: Dev(device) for device in devices if
      device})` on the empty `devs` of Dev.py: a fresh record per non-empty
      device name. */
  function Registry(devices: seq<string>): (r: map<string, Dev>)
    ensures forall d :: d in r <==> d in devices && d != []
    ensures forall d :: d in r ==> r[d] == NewDev(d)
  {
    map d | d in Named(devices) :: NewDev(d)
  }

  /** main.py's start-up: the topic of `d` under the prefix is subscribed exactly
      when the configuration lists `d` and `d` is not empty; a configuration
      without a `devices` key subscribes to nothing. */
  lemma ConfiguredDevices(config: Config, prefix: string, d: string)
    ensures prefix + "/" + d in Topics(prefix, LoadDevices(Some(config)))
        <==> config.devices.Some? && d in config.devices.value && d != []
  {
    var devices := LoadDevices(Some(config));
    if prefix + "/" + d in Topics(prefix, devices) {
      var d' :| d' in devices && d' != [] && prefix + "/" + d == prefix + "/" + d';
      assert d == (prefix + "/" + d)[|prefix| + 1..] == d';
    }
  }

  /** A topic is subscribed exactly when the device it names has a record. */
  lemma TopicsMatchRegistry(prefix: string, devices: seq<string>, d: string)
    ensures prefix + "/" + d in Topics(prefix, devices) <==> d in Registry(devices)
  {
    var ts := Topics(prefix, devices);
    var names := Named(devices);
    if prefix + "/" + d in ts {
      var i :| 0 <= i < |ts| && ts[i] == prefix + "/" + d;
      assert names[i] == (prefix + "/" + d)[|prefix| + 1..];
    }
    if d in Registry(devices) {
      var i :| 0 <= i < |names| && names[i] == d;
      assert ts[i] == prefix + "/" + d;
    }
  }

  // Routing

  /** `topic.split("/")[1]`; `None` where the topic has no `/` and the index
      raises `IndexError`.  Otherwise it is the text between the first `/` and
      the next `/` or the end of the topic. */
  function DeviceOf(topic: string): (r: Option<string>)
    ensures r.Some? <==> '/' in topic
    ensures r.Some? ==> '/' !in r.value
    ensures r.Some? ==> exists p, q {:trigger p + "/" + r.value + q} ::
      topic == p + "/" + r.value + q && '/' !in p && (q == [] || q[0] == '/')
  {
    var pieces := Split(topic, '/');
    if |pieces| < 2 then
      assert pieces == [pieces[0]];
      None
    else
      SplitSecond(topic, '/');
      Some(pieces[1])
  }

  /** The topic of a device names that device again, provided neither the
      prefix nor the device name holds a `/`. */
  lemma TopicNamesDevice(prefix: string, d: string)
    requires '/' !in prefix && '/' !in d
    ensures DeviceOf(prefix + "/" + d) == Some(d)
  {
    SplitNone(d, '/');
    SplitFirst(prefix, '/', d);
  }

  /** Under those conditions every subscribed topic is routed to a device that
      has a record. */
  lemma SubscribedTopicsRoute(prefix: string, devices: seq<string>, topic: string)
    requires '/' !in prefix && forall d :: d in devices ==> '/' !in d
    requires topic in Topics(prefix, devices)
    ensures DeviceOf(topic).Some? && DeviceOf(topic).value in Registry(devices)
  {
    var ts := Topics(prefix, devices);
    var i :| 0 <= i < |ts| && ts[i] == topic;
    var d := Named(devices)[i];
    TopicNamesDevice(prefix, d);
  }

  // Messages

  /** A JSON value in a message field: a number (`int` or `float`), a boolean
      (which `isinstance(_, int)` also accepts), or anything else. */
  datatype Field = Number(n: real) | Boolean(b: bool) | Other

  /** The payload after `json.loads`: not JSON at all, a JSON value that is not
      an object, or an object. */
  datatype Payload = NotJson | NotObject | Object(fields: map<string, Field>)

  /** The numeric value of a field that passes `isinstance(_, (int, float))`. */
  function NumberOf(f: Field): Option<real> {
    match f
    case Number(n) => Some(n)
    case Boolean(b) => Some(if b then 1.0 else 0.0)
    case Other => None
  }

  const Required: seq<string> := ["temperature", "humidity", "battery"]

  /** `[field for field in required_fields if field not in json_message]` */
  function Missing(fields: map<string, Field>, names: seq<string>): (r: seq<string>)
    ensures forall f :: f in r <==> f in names && f !in fields
    decreases |names|
  {
    if names == [] then []
    else (if names[0] !in fields then [names[0]] else []) + Missing(fields, names[1..])
  }

  /** What `handle_message` decides about a message, check by check. */
  datatype Verdict =
    | BadTopic                           // no `/` in the topic
    | BadJson                            // the payload is not JSON
    | EmptyOrNotObject                   // an empty object, or not an object
    | MissingFields(missing: seq<string>)
    | NotNumeric                         // a required field is not a number
    | UnknownDevice(device: string)      // the device has no record
    | Accept(device: string, temperature: real, humidity: real, battery: real)

  /** A message `handle_message` acts on: its topic names a device with a record,
      and its payload is an object whose three required fields are numbers. */
  ghost predicate Acceptable(topic: string, payload: Payload, devs: map<string, Dev>) {
    && DeviceOf(topic).Some? && DeviceOf(topic).value in devs
    && payload.Object?
    && forall f :: f in Required ==> f in payload.fields && NumberOf(payload.fields[f]).Some?
  }

  /** The checks of `handle_message` in their order: the topic, the JSON, the
      object, the required fields, their types, and last the device. */
  function Check(topic: string, payload: Payload, devs: map<string, Dev>): (r: Verdict)
    ensures r.Accept? <==> Acceptable(topic, payload, devs)
    ensures r.Accept? ==>
      && r.device == DeviceOf(topic).value
      && Some(r.temperature) == NumberOf(payload.fields["temperature"])
      && Some(r.humidity) == NumberOf(payload.fields["humidity"])
      && Some(r.battery) == NumberOf(payload.fields["battery"])
    ensures r.MissingFields? ==>
      && payload.Object? && r.missing != []
      && forall f :: f in r.missing <==> f in Required && f !in payload.fields
    ensures r.UnknownDevice? ==> DeviceOf(topic) == Some(r.device) && r.device !in devs
  {
    var device := DeviceOf(topic);
    if device.None? then BadTopic
    else if payload.NotJson? then BadJson
    else if payload.NotObject? || payload.fields == map[] then
      assert "temperature" in Required && (payload.Object? ==> "temperature" !in payload.fields);
      EmptyOrNotObject
    else
      var fields := payload.fields;
      var missing := Missing(fields, Required);
      if missing != [] then MissingFields(missing)
      else
        assert forall f :: f in Required ==> f in fields;
        var t := NumberOf(fields["temperature"]);
        var h := NumberOf(fields["humidity"]);
        var b := NumberOf(fields["battery"]);
        if t.None? || h.None? || b.None? then NotNumeric
        else if device.value !in devs then UnknownDevice(device.value)
        else Accept(device.value, t.value, h.value, b.value)
  }

  /** A message on a subscribed topic carrying three numbers is accepted, when
      no prefix or device name holds a `/`. */
  lemma SubscribedReadingAccepted(prefix: string, devices: seq<string>, topic: string, fields: map<string, Field>)
    requires '/' !in prefix && forall d :: d in devices ==> '/' !in d
    requires topic in Topics(prefix, devices)
    requires forall f :: f in Required ==> f in fields && fields[f].Number?
    ensures Check(topic, Object(fields), Registry(devices)).Accept?
  {
    SubscribedTopicsRoute(prefix, devices, topic);
  }

  /** A boolean passes `isinstance(_, (int, float))`, so a message for a device
      with a record whose temperature is `true` or `false`, and whose other two
      fields are numbers, is accepted with the temperature 1 or 0. */
  lemma BooleanReadingAccepted(topic: string, devs: map<string, Dev>, b: bool, humidity: real, battery: real)
    requires DeviceOf(topic).Some? && DeviceOf(topic).value in devs
    ensures var fields := map["temperature" := Boolean(b), "humidity" := Number(humidity), "battery" := Number(battery)];
      Check(topic, Object(fields), devs) == Accept(DeviceOf(topic).value, if b then 1.0 else 0.0, humidity, battery)
  {
    var fields := map["temperature" := Boolean(b), "humidity" := Number(humidity), "battery" := Number(battery)];
    assert Missing(fields, Required) == [];
  }

  // The agent

  /** The state main.py keeps between messages: the device records, the
      temperature store, and what was published to the broker. */
  class Agent {
    /** `devs` (Dev.py): device name -> record. */
    var devs: map<string, Dev>
    /** The topics subscribed to. */
    const topics: seq<string>
    /** `temps_file` */
    const store: TempsFile
    /** The `(topic, average)` pairs handed to `mqtt_client.publish_message`. */
    var published: seq<(string, real)>

    ghost predicate Valid()
      reads this, store
    {
      store.Valid()
    }

    /** The start-up of main.py: the device list, the topics and the device
        records built from the configuration. */
    constructor (config: Config, store: TempsFile)
      requires store.Valid()
      ensures Valid() && this.store == store
      ensures topics == Topics(Prefix(config), LoadDevices(Some(config)))
      ensures devs == Registry(LoadDevices(Some(config)))
      ensures published == []
    {
      var devices := LoadDevices(Some(config));
      topics := Topics(Prefix(config), devices);
      devs := Registry(devices);
      this.store := store;
      published := [];
    }

    /** `handle_message(topic, message)` at time `now`: the checks, then, for an
        accepted message, the update.  A message that fails a check changes
        nothing. */
    method HandleMessage(topic: string, payload: Payload, now: int) returns (v: Verdict)
      requires Valid()
      modifies this, store
      ensures Valid()
      ensures v == Check(topic, payload, old(devs))
      ensures !v.Accept? ==> devs == old(devs) && published == old(published) && unchanged(store)
      ensures v.Accept? ==> store.temps == Record(old(store.temps), v.device, now, v.temperature)
      ensures v.Accept? ==> store.file == Some(SaveText(store.codec, store.temps, now))
      ensures v.Accept? ==>
        var average := Average(store.temps, v.device, now);
        && average.Some?
        && devs == old(devs)[v.device := old(devs)[v.device].(
             temperature := v.temperature, humidity := v.humidity, battery := v.battery,
             average := average)]
        && published == old(published) + [("average/" + v.device, average.value)]
    {
      v := Check(topic, payload, devs);
      if v.Accept? {
        Update(v.device, v.temperature, v.humidity, v.battery, now);
      }
    }

    /** The update of `handle_message` for an accepted reading of device `d`: it
        sets the device's temperature, humidity and battery, records the
        temperature (saving the store), sets the device's average to the
        store's average, and publishes it to `average/<d>`.  That average is
        never `None` here, as the reading just recorded lies in the window. */
    method Update(d: string, temperature: real, humidity: real, battery: real, now: int)
      requires Valid() && d in devs
      modifies this, store
      ensures Valid()
      ensures store.temps == Record(old(store.temps), d, now, temperature)
      ensures store.file == Some(SaveText(store.codec, store.temps, now))
      ensures
        var average := Average(store.temps, d, now);
        && average.Some?
        && devs == old(devs)[d := old(devs)[d].(
             temperature := temperature, humidity := humidity, battery := battery,
             average := average)]
        && published == old(published) + [("average/" + d, average.value)]
    {
      ghost var temps0, devs0 := store.temps, devs;
      var dev := devs[d].(temperature := temperature, humidity := humidity, battery := battery);
      devs := devs[d := dev];
      ghost var devs1 := devs;
      store.AddTemp(d, temperature, now);
      assert devs == devs1;
      var average := store.GetAverage(d, now);
      RecordedIsAveraged(temps0, d, now, temperature);
      assert average == Average(store.temps, d, now) && average.Some?;
      devs := devs[d := dev.(average := average)];
      Dicts.MapUpdateTwice(devs0, d, dev, dev.(average := average));
      if average.Some? {
        published := published + [("average/" + d, average.value)];
      }
    }
  }
}
