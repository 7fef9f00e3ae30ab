/** Layered options: what each change of the layers notifies, and that the notifications tell the whole story. */
module OptionsManagers {
  import opened Bytes

  /** An option's value; None is the absent value. */
  type Value = Option<string>
  type Layer = map<string, string>

  /** One entry of the dictionary an option set comes in. */
  datatype Setting = Setting(name: string, value: Value)

  /** One entry of a filtered, ordered dictionary. */
  datatype Named = Named(name: string, value: string)

  datatype Change = Change(name: string, newValue: Value, oldValue: Value)

  // ---- Looking options up ----

  function Default(defaults: map<string, Value>, key: string): Value {
    if key in defaults then defaults[key] else None
  }

  /** The value in the first layer that has one, or the default. */
  function Get(layers: seq<Layer>, defaults: map<string, Value>, key: string): Value {
    if layers == [] then Default(defaults, key)
    else if key in layers[0] then Some(layers[0][key])
    else Get(layers[1..], defaults, key)
  }

  predicate IsSet(layers: seq<Layer>, key: string) {
    exists i :: 0 <= i < |layers| && key in layers[i]
  }

  lemma {:induction false} GetIsFirst(layers: seq<Layer>, defaults: map<string, Value>, key: string, i: nat)
    requires i < |layers| && key in layers[i] && forall j :: 0 <= j < i ==> key !in layers[j]
    ensures Get(layers, defaults, key) == Some(layers[i][key])
  {
    if i > 0 { GetIsFirst(layers[1..], defaults, key, i - 1); }
  }

  /** An option that no layer sets has its default, or none. */
  lemma {:induction false} GetUnset(layers: seq<Layer>, defaults: map<string, Value>, key: string)
    requires !IsSet(layers, key)
    ensures key in defaults ==> Get(layers, defaults, key) == defaults[key]
    ensures key !in defaults ==> Get(layers, defaults, key) == None
  {
    if layers != [] {
      assert forall i :: 0 <= i < |layers| - 1 ==> layers[1..][i] == layers[i + 1];
      assert key !in layers[0];
      GetUnset(layers[1..], defaults, key);
    }
  }

  /** A layer at the back counts only for options no layer sets. */
  lemma {:induction false} GetAppended(layers: seq<Layer>, last: Layer, defaults: map<string, Value>, key: string)
    ensures Get(layers + [last], defaults, key) ==
            if IsSet(layers, key) then Get(layers, defaults, key)
            else if key in last then Some(last[key]) else Default(defaults, key)
  {
    if layers == [] {
      assert ([] + [last])[1..] == [];
    } else {
      assert (layers + [last])[1..] == layers[1..] + [last];
      GetAppended(layers[1..], last, defaults, key);
      IsSetCons(layers, key);
    }
  }

  lemma IsSetCons(layers: seq<Layer>, key: string)
    requires layers != []
    ensures IsSet(layers, key) <==> key in layers[0] || IsSet(layers[1..], key)
  {
    if IsSet(layers[1..], key) {
      var i :| 0 <= i < |layers| - 1 && key in layers[1..][i];
      assert key in layers[i + 1];
    }
    if IsSet(layers, key) && key !in layers[0] {
      var i :| 0 <= i < |layers| && key in layers[i];
      assert key in layers[1..][i - 1];
    }
  }

  // ---- Names ----

  /** str.replace("__", ".") */
  function Dotted(s: string): string {
    if |s| >= 2 && s[0] == '_' && s[1] == '_' then ['.'] + Dotted(s[2..])
    else if s == [] then [] else [s[0]] + Dotted(s[1..])
  }

  /** str.lower() of the letters A to Z */
  function Lower(s: string): string {
    seq<char>(|s|, i requires 0 <= i < |s| => if 'A' <= s[i] <= 'Z' then s[i] - 'A' + 'a' else s[i])
  }

  function OptionName(s: string): string {
    Lower(Dotted(s))
  }

  predicate Regular(s: string) {
    && (forall i :: 0 <= i < |s| ==> !('A' <= s[i] <= 'Z'))
    && forall i :: 0 <= i < |s| - 1 ==> !(s[i] == '_' && s[i + 1] == '_')
  }

  lemma {:induction false} DottedRegular(s: string)
    requires forall i :: 0 <= i < |s| - 1 ==> !(s[i] == '_' && s[i + 1] == '_')
    ensures Dotted(s) == s
  {
    if s != [] {
      assert forall i :: 0 <= i < |s| - 1 ==> s[1..][i] == s[i + 1];
      DottedRegular(s[1..]);
    }
  }

  lemma {:induction false} DottedShrinks(s: string)
    ensures |Dotted(s)| <= |s|
    ensures |Dotted(s)| == |s| ==> forall i :: 0 <= i < |s| - 1 ==> !(s[i] == '_' && s[i + 1] == '_')
  {
    if |s| >= 2 && s[0] == '_' && s[1] == '_' {
      DottedShrinks(s[2..]);
    } else if s != [] {
      DottedShrinks(s[1..]);
      assert forall i :: 0 < i < |s| ==> s[i] == s[1..][i - 1];
    }
  }

  /** Exactly the names already in their final form stay as they are. */
  lemma RegularNameStays(s: string)
    ensures Regular(s) <==> OptionName(s) == s
  {
    if Regular(s) {
      DottedRegular(s);
    }
    if OptionName(s) == s {
      DottedShrinks(s);
      DottedRegular(s);
      assert forall i :: 0 <= i < |s| ==> s[i] == Lower(s)[i];
    }
  }

  function Joined(parts: seq<string>, separator: string): string {
    if parts == [] then []
    else if |parts| == 1 then parts[0]
    else parts[0] + separator + Joined(parts[1..], separator)
  }

  /** Parts of a name: without "__", and all but the last not ending in an underscore. */
  predicate AreParts(parts: seq<string>) {
    forall k :: 0 <= k < |parts| ==> IsPart(parts[k], k == |parts| - 1)
  }

  predicate IsPart(s: string, last: bool) {
    && (forall i :: 0 <= i < |s| - 1 ==> !(s[i] == '_' && s[i + 1] == '_'))
    && (last || s == [] || s[|s| - 1] != '_')
  }

  lemma {:induction false} DottedPart(a: string, rest: string)
    requires IsPart(a, false)
    ensures Dotted(a + "__" + rest) == a + "." + Dotted(rest)
  {
    var s := a + "__" + rest;
    if a == [] {
      assert s[2..] == rest;
    } else {
      assert s[1..] == a[1..] + "__" + rest;
      assert forall i :: 0 <= i < |a| - 1 ==> a[1..][i] == a[i + 1];
      DottedPart(a[1..], rest);
      assert [a[0]] + (a[1..] + "." + Dotted(rest)) == a + "." + Dotted(rest);
    }
  }

  /** Parts joined by "__" become parts joined by dots. */
  lemma {:induction false} DottedJoins(parts: seq<string>)
    requires AreParts(parts)
    ensures Dotted(Joined(parts, "__")) == Joined(parts, ".")
  {
    if |parts| == 1 {
      assert IsPart(parts[0], true);
      DottedRegular(parts[0]);
    } else if parts != [] {
      assert IsPart(parts[0], false);
      forall k | 0 <= k < |parts| - 1
        ensures IsPart(parts[1..][k], k == |parts| - 2)
      {
        assert IsPart(parts[k + 1], k + 1 == |parts| - 1);
      }
      DottedJoins(parts[1..]);
      DottedPart(parts[0], Joined(parts[1..], "__"));
    }
  }

  /** Every name is parts joined by "__". */
  lemma {:induction false} NameHasParts(s: string) returns (parts: seq<string>)
    ensures parts != [] && AreParts(parts) && Joined(parts, "__") == s
  {
    if s == [] {
      parts := [""];
    } else if |s| >= 2 && s[0] == '_' && s[1] == '_' {
      var rest := NameHasParts(s[2..]);
      parts := [""] + rest;
      assert parts[1..] == rest;
      assert s == "" + "__" + s[2..];
    } else {
      var rest := NameHasParts(s[1..]);
      parts := [[s[0]] + rest[0]] + rest[1..];
      assert parts[1..] == rest[1..];
      FirstPart(rest, s[1..]);
      assert s == [s[0]] + s[1..];
    }
  }

  /** A name begins as its first part does, and when that is empty with the separator. */
  lemma FirstPart(parts: seq<string>, s: string)
    requires parts != [] && Joined(parts, "__") == s
    ensures parts[0] != [] ==> s != [] && s[0] == parts[0][0]
    ensures parts[0] == [] && |parts| > 1 ==> |s| >= 2 && s[0] == '_'
  {
  }

  /** The letters A to Z move up by 32, all other characters stay. */
  lemma LowerLetters(s: string, i: nat)
    requires i < |s|
    ensures |Lower(s)| == |s|
    ensures Lower(s)[i] as int == if 65 <= s[i] as int <= 90 then s[i] as int + 32 else s[i] as int
  {
  }

  // ---- Filtering ----

  predicate Distinct(d: seq<Named>) {
    forall i, j :: 0 <= i < j < |d| ==> d[i].name != d[j].name
  }

  /** Position of a name, or the length. */
  function Find(d: seq<Named>, name: string): (k: nat)
    ensures k <= |d| && forall j :: 0 <= j < k ==> d[j].name != name
    ensures k < |d| ==> d[k].name == name
  {
    if d == [] || d[0].name == name then 0
    else
      var k := Find(d[1..], name);
      assert forall j :: 1 <= j < k + 1 ==> d[j] == d[1..][j - 1];
      k + 1
  }

  /** dict[name] = value: an existing entry keeps its place. */
  function Put(d: seq<Named>, name: string, value: string): (r: seq<Named>)
    ensures Distinct(d) ==> Distinct(r)
  {
    var k := Find(d, name);
    if k < |d| then d[k := Named(name, value)] else d + [Named(name, value)]
  }

  /** Entries without a value are left out, names brought to their final form. */
  function Converted(options: seq<Setting>): (d: seq<Named>)
    ensures Distinct(d)
    decreases |options|
  {
    if options == [] then []
    else
      var s := options[|options| - 1];
      var d := Converted(options[..|options| - 1]);
      if s.value.None? then d else Put(d, OptionName(s.name), s.value.value)
  }

  function LayerOf(d: seq<Named>): Layer
    decreases |d|
  {
    if d == [] then map[] else LayerOf(d[..|d| - 1])[d[|d| - 1].name := d[|d| - 1].value]
  }

  /** Giving an existing name another value. */
  lemma {:induction false} LayerOfChanged(d: seq<Named>, k: nat, value: string)
    requires Distinct(d) && k < |d|
    ensures LayerOf(d[k := Named(d[k].name, value)]) == LayerOf(d)[d[k].name := value]
    decreases |d|
  {
    var n := |d| - 1;
    var c := d[k := Named(d[k].name, value)];
    if k < n {
      LayerOfChanged(d[..n], k, value);
      assert c[..n] == d[..n][k := Named(d[k].name, value)];
    } else {
      assert c[..n] == d[..n];
    }
  }

  lemma LayerOfSnoc(d: seq<Named>, last: Named)
    ensures LayerOf(d + [last]) == LayerOf(d)[last.name := last.value]
  {
    assert (d + [last])[..|d|] == d;
  }

  lemma LayerOfPut(d: seq<Named>, name: string, value: string)
    requires Distinct(d)
    ensures LayerOf(Put(d, name, value)) == LayerOf(d)[name := value]
  {
    hide Distinct, LayerOf, Find;
    var k := Find(d, name);
    if k < |d| {
      LayerOfChanged(d, k, value);
    } else {
      LayerOfSnoc(d, Named(name, value));
    }
  }

  /** No later setting with a value has the same option name. */
  predicate IsLastSetting(options: seq<Setting>, i: nat)
    requires i < |options|
  {
    options[i].value.Some?
    && forall j :: i < j < |options| && options[j].value.Some? ==> OptionName(options[j].name) != OptionName(options[i].name)
  }

  /** Every setting with a value is overtaken by none, or by one that is last. */
  lemma {:induction false} SomeSettingIsLast(options: seq<Setting>, i: nat)
    requires i < |options| && options[i].value.Some?
    ensures exists k :: i <= k < |options| && IsLastSetting(options, k)
                        && OptionName(options[k].name) == OptionName(options[i].name)
    decreases |options| - i
  {
    hide OptionName;
    if !IsLastSetting(options, i) {
      var j :| i < j < |options| && options[j].value.Some?
               && OptionName(options[j].name) == OptionName(options[i].name);
      SomeSettingIsLast(options, j);
    }
  }

  /** The layer of an option set gives each option the last value set for its name, and no other option any. */
  lemma {:induction false} ConvertedLayer(options: seq<Setting>, i: nat)
    requires i < |options| && IsLastSetting(options, i)
    ensures var layer := LayerOf(Converted(options));
            OptionName(options[i].name) in layer && layer[OptionName(options[i].name)] == options[i].value.value
    decreases |options|
  {
    hide OptionName, Put, LayerOf;
    var n := |options| - 1;
    var d := Converted(options[..n]);
    if i < n {
      ConvertedLayer(options[..n], i);
    }
    if options[n].value.Some? { LayerOfPut(d, OptionName(options[n].name), options[n].value.value); }
  }

  lemma {:induction false} ConvertedOnly(options: seq<Setting>, name: string)
    requires forall i :: 0 <= i < |options| && options[i].value.Some? ==> OptionName(options[i].name) != name
    ensures name !in LayerOf(Converted(options))
    decreases |options|
  {
    hide OptionName, Put;
    if options != [] {
      var n := |options| - 1;
      ConvertedOnly(options[..n], name);
      if options[n].value.Some? {
        LayerOfPut(Converted(options[..n]), OptionName(options[n].name), options[n].value.value);
      }
    }
  }

  predicate Has(d: seq<Named>, name: string) {
    exists i :: 0 <= i < |d| && d[i].name == name
  }

  lemma HasSnoc(d: seq<Named>, name: string)
    requires d != []
    ensures Has(d, name) <==> Has(d[..|d| - 1], name) || d[|d| - 1].name == name
  {
    var n := |d| - 1;
    if Has(d[..n], name) {
      var i :| 0 <= i < n && d[..n][i].name == name;
      assert d[i].name == name;
    }
    if Has(d, name) && d[n].name != name {
      var i :| 0 <= i < |d| && d[i].name == name;
      assert d[..n][i].name == name;
    }
  }

  lemma {:induction false} LayerHasNames(d: seq<Named>, key: string)
    ensures key in LayerOf(d) <==> Has(d, key)
    decreases |d|
  {
    if d != [] {
      LayerHasNames(d[..|d| - 1], key);
      HasSnoc(d, key);
    }
  }

  // ---- Operations ----

  datatype Op =
    | AddFront(options: Option<seq<Setting>>)
    | AddBack(options: Option<seq<Setting>>)
    | Update(settings: seq<Setting>)

  /** The names an operation touches, in order. */
  function Touched(op: Op): (d: seq<Named>)
    ensures Distinct(d)
  {
    match op
    case AddFront(o) => if o.None? then [] else Converted(o.value)
    case AddBack(o) => if o.None? then [] else Converted(o.value)
    case Update(s) => Converted(s)
  }

  /** The layers after an operation; updating without any layer fails. */
  function Apply(layers: seq<Layer>, op: Op): Option<seq<Layer>> {
    match op
    case AddFront(o) => if o.None? then Some(layers) else Some([LayerOf(Touched(op))] + layers)
    case AddBack(o) => if o.None? then Some(layers) else Some(layers + [LayerOf(Touched(op))])
    case Update(s) => if layers == [] then None else Some([layers[0] + LayerOf(Touched(op))] + layers[1..])
  }

  /** The notifications for a list of names: those whose value differs. */
  function Changes(before: seq<Layer>, after: seq<Layer>, defaults: map<string, Value>, d: seq<Named>): seq<Change>
    decreases |d|
  {
    if d == [] then []
    else
      var name := d[|d| - 1].name;
      var rest := Changes(before, after, defaults, d[..|d| - 1]);
      var was, now := Get(before, defaults, name), Get(after, defaults, name);
      if now != was then rest + [Change(name, now, was)] else rest
  }

  /** Only touched names change their value. */
  lemma UntouchedStays(layers: seq<Layer>, defaults: map<string, Value>, op: Op, key: string)
    requires Apply(layers, op).Some?
    requires !Has(Touched(op), key)
    ensures Get(Apply(layers, op).value, defaults, key) == Get(layers, defaults, key)
  {
    hide Touched, LayerOf, Has;
    var d := Touched(op);
    LayerHasNames(d, key);
    match op
    case AddFront(o) =>
      assert ([LayerOf(d)] + layers)[1..] == layers;
    case AddBack(o) =>
      GetAppended(layers, LayerOf(d), defaults, key);
      if !IsSet(layers, key) { GetUnset(layers, defaults, key); }
    case Update(s) =>
      assert ([layers[0] + LayerOf(d)] + layers[1..])[1..] == layers[1..];
  }

  /** What has been notified of `key`, as a subscriber that knows the default sees it. */
  function Replayed(log: seq<Change>, defaults: map<string, Value>, key: string): Value
    decreases |log|
  {
    if log == [] then Default(defaults, key)
    else if log[|log| - 1].name == key then log[|log| - 1].newValue
    else Replayed(log[..|log| - 1], defaults, key)
  }

  /** Every notification tells of a real change, from the value known before it. */
  ghost predicate Truthful(log: seq<Change>, defaults: map<string, Value>) {
    forall i :: 0 <= i < |log| ==>
      log[i].oldValue == Replayed(log[..i], defaults, log[i].name) && log[i].newValue != log[i].oldValue
  }

  lemma ReplayedSnoc(log: seq<Change>, c: Change, defaults: map<string, Value>, key: string)
    ensures Replayed(log + [c], defaults, key) == if c.name == key then c.newValue else Replayed(log, defaults, key)
  {
    assert (log + [c])[..|log + [c]| - 1] == log;
  }

  lemma TruthfulSnoc(log: seq<Change>, c: Change, defaults: map<string, Value>)
    requires Truthful(log, defaults)
    requires c.oldValue == Replayed(log, defaults, c.name) && c.newValue != c.oldValue
    ensures Truthful(log + [c], defaults)
  {
    var next := log + [c];
    forall i | 0 <= i < |next|
      ensures next[i].oldValue == Replayed(next[..i], defaults, next[i].name) && next[i].newValue != next[i].oldValue
    {
      assert i < |log| ==> next[..i] == log[..i] && next[i] == log[i];
      assert i == |log| ==> next[..i] == log;
    }
  }

  /** A subscriber's view and the values of the options agree. */
  ghost predicate Knows(log: seq<Change>, layers: seq<Layer>, defaults: map<string, Value>) {
    forall key :: Replayed(log, defaults, key) == Get(layers, defaults, key)
  }

  /** After the notifications of the names in `d`, a subscriber knows the new values of those names, and still the
      old ones of the others. */
  lemma {:induction false} ChangesReplay(
    log: seq<Change>, before: seq<Layer>, after: seq<Layer>, defaults: map<string, Value>, d: seq<Named>, key: string)
    requires Distinct(d) && Truthful(log, defaults) && Knows(log, before, defaults)
    ensures var now := log + Changes(before, after, defaults, d);
            && Truthful(now, defaults)
            && Replayed(now, defaults, key) == Get(if Has(d, key) then after else before, defaults, key)
    decreases |d|
  {
    hide Get, Truthful, Replayed, Has;
    if d == [] {
      assert log + [] == log;
      NothingHas(key);
    } else {
      var n := |d| - 1;
      var name := d[n].name;
      ChangesReplay(log, before, after, defaults, d[..n], key);
      ChangesReplay(log, before, after, defaults, d[..n], name);
      HasSnoc(d, key);
      NewName(d);
      var most := log + Changes(before, after, defaults, d[..n]);
      var was, now := Get(before, defaults, name), Get(after, defaults, name);
      if now != was {
        var c := Change(name, now, was);
        assert log + Changes(before, after, defaults, d) == most + [c];
        TruthfulSnoc(most, c, defaults);
        ReplayedSnoc(most, c, defaults, key);
      }
    }
  }

  lemma NothingHas(name: string)
    ensures !Has([], name)
  {
  }

  lemma NewName(d: seq<Named>)
    requires d != [] && Distinct(d)
    ensures !Has(d[..|d| - 1], d[|d| - 1].name)
  {
  }

  /** One operation: replaying its notifications takes a subscriber from the old values to the new ones. */
  lemma OpReplay(log: seq<Change>, layers: seq<Layer>, defaults: map<string, Value>, op: Op)
    requires Truthful(log, defaults) && Knows(log, layers, defaults) && Apply(layers, op).Some?
    ensures var after := Apply(layers, op).value;
            var now := log + Changes(layers, after, defaults, Touched(op));
            Truthful(now, defaults) && Knows(now, after, defaults)
  {
    hide Apply, Truthful, Touched, Has, Replayed, Get;
    var after := Apply(layers, op).value;
    var now := log + Changes(layers, after, defaults, Touched(op));
    ChangesReplay(log, layers, after, defaults, Touched(op), "");
    forall key
      ensures Replayed(now, defaults, key) == Get(after, defaults, key)
    {
      ChangesReplay(log, layers, after, defaults, Touched(op), key);
      if !Has(Touched(op), key) { UntouchedStays(layers, defaults, op, key); }
    }
  }

  // ---- Runs ----

  datatype History = History(layers: seq<Layer>, log: seq<Change>)

  /** One operation: the layers and all notifications before and after it; one that fails does nothing. */
  ghost predicate Next(h: History, op: Op, next: History, defaults: map<string, Value>) {
    var after := Apply(h.layers, op);
    if after.None? then next == h
    else next == History(after.value, h.log + Changes(h.layers, after.value, defaults, Touched(op)))
  }

  ghost predicate IsRun(states: seq<History>, ops: seq<Op>, defaults: map<string, Value>) {
    && |states| == |ops| + 1
    && states[0] == History([], [])
    && forall i :: 0 <= i < |ops| ==> Next(states[i], ops[i], states[i + 1], defaults)
  }

  /** Over every run: replaying all notifications onto the defaults gives the value of every option, and each
      notification is of a real change from the value replayed so far. */
  lemma {:induction false} NotificationsTellAll(
    states: seq<History>, ops: seq<Op>, defaults: map<string, Value>, n: nat)
    requires IsRun(states, ops, defaults) && n <= |ops|
    ensures Truthful(states[n].log, defaults)
    ensures forall key :: Replayed(states[n].log, defaults, key) == Get(states[n].layers, defaults, key)
  {
    hide Apply, Touched, Truthful, Replayed, Get;
    if n == 0 {
      NothingNotified(defaults);
    } else {
      NotificationsTellAll(states, ops, defaults, n - 1);
      var h := states[n - 1];
      assert Next(h, ops[n - 1], states[n], defaults);
      if Apply(h.layers, ops[n - 1]).Some? {
        OpReplay(h.log, h.layers, defaults, ops[n - 1]);
      }
    }
  }

  lemma NothingNotified(defaults: map<string, Value>)
    ensures Truthful([], defaults) && Knows([], [], defaults)
  {
  }

  /** An option set added to the front, or an update, gives each of its options the value set last for it, under the
      name with "__" for dots and in lower case. */
  lemma SetOptionHasValue(
    layers: seq<Layer>, defaults: map<string, Value>, op: Op, options: seq<Setting>, i: nat, parts: seq<string>)
    requires op == AddFront(Some(options)) || (op == Update(options) && layers != [])
    requires i < |options| && IsLastSetting(options, i)
    requires AreParts(parts) && options[i].name == Joined(parts, "__")
    ensures Get(Apply(layers, op).value, defaults, Lower(Joined(parts, "."))) == options[i].value
  {
    hide Converted, LayerOf, Joined, AreParts, Lower;
    DottedJoins(parts);
    ConvertedLayer(options, i);
  }

  /** Added at the back it does so for the options that no layer sets. */
  lemma BackOptionHasValue(
    layers: seq<Layer>, defaults: map<string, Value>, options: seq<Setting>, i: nat, parts: seq<string>)
    requires i < |options| && IsLastSetting(options, i)
    requires AreParts(parts) && options[i].name == Joined(parts, "__")
    requires !IsSet(layers, Lower(Joined(parts, ".")))
    ensures Get(Apply(layers, AddBack(Some(options))).value, defaults, Lower(Joined(parts, "."))) == options[i].value
  {
    hide Converted, LayerOf, Joined, AreParts, Lower, Get;
    DottedJoins(parts);
    ConvertedLayer(options, i);
    GetAppended(layers, LayerOf(Converted(options)), defaults, Lower(Joined(parts, ".")));
  }

  /** A layer added at the back changes no option that is set, and so notifies nothing about it. */
  lemma BackOnlyFillsGaps(layers: seq<Layer>, defaults: map<string, Value>, op: Op, key: string)
    requires op.AddBack? && IsSet(layers, key)
    ensures Get(Apply(layers, op).value, defaults, key) == Get(layers, defaults, key)
    ensures forall c :: c in Changes(layers, Apply(layers, op).value, defaults, Touched(op)) ==> c.name != key
  {
    hide Get, LayerOf, Touched;
    if op.options.Some? { GetAppended(layers, LayerOf(Touched(op)), defaults, key); }
    var after := Apply(layers, op).value;
    OnlyRealChanges(layers, after, defaults, Touched(op));
  }

  lemma {:induction false} OnlyRealChanges(
    before: seq<Layer>, after: seq<Layer>, defaults: map<string, Value>, d: seq<Named>)
    ensures forall c :: c in Changes(before, after, defaults, d) ==>
              c.oldValue == Get(before, defaults, c.name) && c.newValue == Get(after, defaults, c.name)
              && c.oldValue != c.newValue
    decreases |d|
  {
    if d != [] { OnlyRealChanges(before, after, defaults, d[..|d| - 1]); }
  }

  // ---- The manager ----

  class OptionsManager {
    const defaults: map<string, Value>
    var layers: seq<Layer>
    var notified: seq<Change>     // everything sent to subscribers

    constructor (defaults: map<string, Value>)
      ensures this.defaults == defaults && State() == History([], [])
    {
      this.defaults, layers, notified := defaults, [], [];
    }

    ghost function State(): History
      reads this
    {
      History(layers, notified)
    }

    /** Drops entries without a value and brings names to their final form. */
    method ConvertOptions(options: seq<Setting>) returns (output: seq<Named>)
      ensures output == Converted(options)
    {
      hide Put, OptionName;
      output := [];
      for i := 0 to |options|
        invariant output == Converted(options[..i])
      {
        assert options[..i + 1][..i] == options[..i];
        if options[i].value.Some? {
          output := Put(output, OptionName(options[i].name), options[i].value.value);
        }
      }
      assert options[..|options|] == options;
    }

    /** The first layer's value for the option, or its default. */
    method Lookup(key: string) returns (value: Value)
      ensures value == Get(layers, defaults, key)
    {
      for i := 0 to |layers|
        invariant Get(layers, defaults, key) == Get(layers[i..], defaults, key)
      {
        assert layers[i..][1..] == layers[i + 1..];
        if key in layers[i] { return Some(layers[i][key]); }
      }
      return Default(defaults, key);
    }

    method Values(names: seq<Named>) returns (values: seq<Value>)
      ensures |values| == |names| && forall i :: 0 <= i < |names| ==> values[i] == Get(layers, defaults, names[i].name)
    {
      values := [];
      for i := 0 to |names|
        invariant |values| == i && forall j :: 0 <= j < i ==> values[j] == Get(layers, defaults, names[j].name)
      {
        var value := Lookup(names[i].name);
        values := values + [value];
      }
    }

    method NotifyChanges(ghost before: seq<Layer>, names: seq<Named>, previous: seq<Value>, current: seq<Value>)
      requires |previous| == |current| == |names|
      requires forall i :: 0 <= i < |names| ==> previous[i] == Get(before, defaults, names[i].name)
      requires forall i :: 0 <= i < |names| ==> current[i] == Get(layers, defaults, names[i].name)
      modifies this`notified
      ensures notified == old(notified) + Changes(before, layers, defaults, names)
    {
      hide Get;
      for i := 0 to |names|
        invariant notified == old(notified) + Changes(before, layers, defaults, names[..i])
      {
        assert names[..i + 1][..i] == names[..i];
        if current[i] != previous[i] {
          notified := notified + [Change(names[i].name, current[i], previous[i])];
        }
      }
      assert names[..|names|] == names;
    }

    /** A layer of highest priority. */
    method AddFront(options: Option<seq<Setting>>)
      modifies this
      ensures Next(old(State()), Op.AddFront(options), State(), defaults)
    {
      if options.None? {
        NoChanges(layers, defaults);
        return;
      }
      ghost var before := layers;
      var filtered := ConvertOptions(options.value);
      var previous := Values(filtered);
      layers := [LayerOf(filtered)] + layers;
      var current := Values(filtered);
      NotifyChanges(before, filtered, previous, current);
    }

    /** A layer of lowest priority. */
    method AddBack(options: Option<seq<Setting>>)
      modifies this
      ensures Next(old(State()), Op.AddBack(options), State(), defaults)
    {
      if options.None? {
        NoChanges(layers, defaults);
        return;
      }
      ghost var before := layers;
      var filtered := ConvertOptions(options.value);
      var previous := Values(filtered);
      layers := layers + [LayerOf(filtered)];
      var current := Values(filtered);
      NotifyChanges(before, filtered, previous, current);
    }

    /** Sets options in the layer of highest priority; without any layer this is an index error. */
    method Update(options: seq<Setting>) returns (ok: bool)
      modifies this
      ensures ok <==> old(layers) != []
      ensures Next(old(State()), Op.Update(options), State(), defaults)
    {
      ghost var before := layers;
      var filtered := ConvertOptions(options);
      var previous := Values(filtered);
      if layers == [] { return false; }
      layers := [layers[0] + LayerOf(filtered)] + layers[1..];
      UpdatedValues(before, layers, defaults, filtered);
      var current := seq<Value>(|filtered|, i requires 0 <= i < |filtered| => Some(filtered[i].value));
      NotifyChanges(before, filtered, previous, current);
      return true;
    }
  }

  lemma NoChanges(layers: seq<Layer>, defaults: map<string, Value>)
    ensures Changes(layers, layers, defaults, []) == []
  {
  }

  lemma {:induction false} LayerHolds(d: seq<Named>, i: nat)
    requires Distinct(d) && i < |d|
    ensures d[i].name in LayerOf(d) && LayerOf(d)[d[i].name] == d[i].value
    decreases |d|
  {
    var n := |d| - 1;
    if i < n { LayerHolds(d[..n], i); }
  }

  /** What `update` notifies, the filtered values themselves, is what the options are afterwards. */
  lemma UpdatedValues(before: seq<Layer>, after: seq<Layer>, defaults: map<string, Value>, d: seq<Named>)
    requires Distinct(d) && before != [] && after == [before[0] + LayerOf(d)] + before[1..]
    ensures forall i :: 0 <= i < |d| ==> Get(after, defaults, d[i].name) == Some(d[i].value)
  {
    forall i | 0 <= i < |d|
      ensures Get(after, defaults, d[i].name) == Some(d[i].value)
    {
      LayerHolds(d, i);
    }
  }
}
