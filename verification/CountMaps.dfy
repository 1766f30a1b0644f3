/**
  Counter maps on their way from a score record to the page: the backend's parser
  (backend/app/matches.py) and the portal's (web/portal/src/utils/match-stats.ts),
  on ASCII text.
 */
module CountMaps {
  import opened Prelude
  import opened TextTools

  // --------------------------------------------------------------- product keys

  function Alias(key: string): string {
    if key == "coke" || key == "cola" then "soda" else key
  }

  /** The backend's _canonicalize_product_key. */
  function BackendKey(value: string): string {
    Alias(Lower(StripEnds(value, StripSpace)))
  }

  /** The names, in lower case, under which a plain object answers although nothing was stored. */
  predicate Inherited(key: string) {
    key == "constructor" || key == "__proto__"
  }

  /** The property name the portal's canonicalizeProductKey comes to. Its alias table is a plain
      object, so an inherited name looks up an inherited value, which is then turned into text. */
  function PortalKey(value: string): string {
    var normalized := Lower(StripEnds(value, TrimSpace));
    if normalized == "constructor" then "function Object() { [native code] }"
    else if normalized == "__proto__" then "[object Object]"
    else Alias(normalized)
  }

  lemma SodaIsPlain()
    ensures Lower("soda") == "soda" && Alias("soda") == "soda" && !Inherited("soda")
    ensures Stripped("soda", StripSpace) && Stripped("soda", TrimSpace)
  {
  }

  /** The backend's product key: without the blanks around it, in lower case, coke and cola being soda. */
  lemma BackendKeyIs(left: string, middle: string, right: string)
    requires AllBlank(left, StripSpace) && AllBlank(right, StripSpace) && Stripped(middle, StripSpace)
    ensures BackendKey(left + middle + right)
            == if Lower(middle) == "coke" || Lower(middle) == "cola" then "soda" else Lower(middle)
  {
    StripIsTheMiddle(left, middle, right, StripSpace);
  }

  /** The portal's: the same, but for the names that every object inherits. */
  lemma PortalKeyIs(left: string, middle: string, right: string)
    requires AllBlank(left, TrimSpace) && AllBlank(right, TrimSpace) && Stripped(middle, TrimSpace)
    ensures PortalKey(left + middle + right) ==
      if Lower(middle) == "coke" || Lower(middle) == "cola" then "soda"
      else if Lower(middle) == "constructor" then "function Object() { [native code] }"
      else if Lower(middle) == "__proto__" then "[object Object]"
      else Lower(middle)
  {
    StripIsTheMiddle(left, middle, right, TrimSpace);
    assert |"constructor"| == 11 && |"__proto__"| == 9 && |"coke"| == 4 && |"cola"| == 4;
  }

  /** A backend key is stripped and in lower case, for both languages' notions, and is its own key. */
  lemma BackendKeyIsSettled(value: string)
    ensures var key := BackendKey(value);
      && Stripped(key, StripSpace) && Stripped(key, TrimSpace) && Lower(key) == key && Alias(key) == key
      && BackendKey(key) == key
  {
    var stripped := StripEnds(value, StripSpace);
    StripLeavesBare(value, StripSpace);
    LowerTwice(stripped);
    SodaIsPlain();
    var key := BackendKey(value);
    assert Stripped(Lower(stripped), StripSpace);
    StripLeavesBare(key, StripSpace);
  }

  /** The portal keeps a backend key exactly when it is not an inherited name. */
  lemma PortalKeepsBackendKeyIff(value: string)
    ensures PortalKey(BackendKey(value)) == BackendKey(value) <==> !Inherited(BackendKey(value))
  {
    var key := BackendKey(value);
    BackendKeyIsSettled(value);
    StripLeavesBare(key, TrimSpace);
    assert |"constructor"| == 11 && |"function Object() { [native code] }"| == 35;
    assert |"__proto__"| == 9 && |"[object Object]"| == 15;
  }

  // ------------------------------------------------------------------ parsing

  /** A JSON value as the two integer readers see it: what int() and what Number() make of it.
      Nested is an array or object: int() rejects it, Number() reads some arrays. */
  datatype Value =
    | Integer(n: int)
    | Fractional(r: real)
    | Text(python: Option<int>, script: Option<real>)
    | Truth(b: bool)
    | Nested(script: Option<real>)
    | Nothing

  /** _safe_int */
  function SafeInt(value: Value): nat {
    match value
    case Integer(n) => Max(0, n)
    case Fractional(r) => if r >= 0.0 then r.Floor else 0
    case Text(python, _) => Max(0, python.GetOr(0))
    case Truth(b) => if b then 1 else 0
    case Nested(_) => 0
    case Nothing => 0
  }

  /** toNonNegativeInt */
  function NonNegativeInt(value: Value): nat {
    match value
    case Integer(n) => Max(0, n)
    case Fractional(r) => Max(0, r.Floor)
    case Text(_, script) => Max(0, script.GetOr(0.0).Floor)
    case Truth(b) => if b then 1 else 0
    case Nested(script) => Max(0, script.GetOr(0.0).Floor)
    case Nothing => 0
  }

  /** Both languages read a number as the greatest natural number it reaches, and 0 if it reaches none; booleans as
      1 and 0, nothing as 0; of other values Python reads no array or object, each its own texts. */
  lemma IntegersRead(value: Value)
    ensures value.Integer? ==> SafeInt(value) == NonNegativeInt(value) == if value.n < 0 then 0 else value.n
    ensures value.Fractional? && value.r >= 0.0 ==>
      SafeInt(value) == NonNegativeInt(value) && SafeInt(value) as real <= value.r < SafeInt(value) as real + 1.0
    ensures value.Fractional? && value.r < 0.0 ==> SafeInt(value) == NonNegativeInt(value) == 0
    ensures value.Truth? ==> SafeInt(value) == NonNegativeInt(value) == if value.b then 1 else 0
    ensures value.Nothing? ==> SafeInt(value) == NonNegativeInt(value) == 0
    ensures value.Nested? ==> SafeInt(value) == 0
    ensures value.Text? ==>
      SafeInt(value) == if value.python.Some? && value.python.value > 0 then value.python.value else 0
    ensures (value.Text? || value.Nested?) && value.script.Some? && value.script.value >= 0.0 ==>
      NonNegativeInt(value) as real <= value.script.value < NonNegativeInt(value) as real + 1.0
    ensures (value.Text? || value.Nested?) && (value.script.None? || value.script.value < 0.0) ==>
      NonNegativeInt(value) == 0
  {
  }

  datatype Count = Count(key: string, count: nat)

  /** The counts that count: positive ones, under a nonempty key. */
  function Counted(entry: Count, canon: string -> string): nat {
    if canon(entry.key) == "" then 0 else entry.count
  }

  function Total(entries: seq<Count>, canon: string -> string): nat {
    if entries == [] then 0
    else Total(entries[..|entries| - 1], canon) + Counted(entries[|entries| - 1], canon)
  }

  /** What the entries add up to under one canonical key. */
  function TotalFor(entries: seq<Count>, canon: string -> string, key: string): nat {
    if entries == [] then 0
    else
      var last := entries[|entries| - 1];
      TotalFor(entries[..|entries| - 1], canon, key) + (if canon(last.key) == key then Counted(last, canon) else 0)
  }

  /** Totals add up: those of one entry are its count under its canonical key, if that is not empty, and those of
      two lists together the sum of theirs. */
  lemma {:induction false} TotalsAddUp(a: seq<Count>, b: seq<Count>, canon: string -> string, key: string)
    ensures Total(a + b, canon) == Total(a, canon) + Total(b, canon)
    ensures TotalFor(a + b, canon, key) == TotalFor(a, canon, key) + TotalFor(b, canon, key)
    ensures forall entry :: Total([entry], canon) == if canon(entry.key) == "" then 0 else entry.count
    ensures forall entry ::
      TotalFor([entry], canon, key) == if canon(entry.key) == key && key != "" then entry.count else 0
  {
    forall entry: Count
      ensures Total([entry], canon) == if canon(entry.key) == "" then 0 else entry.count
      ensures TotalFor([entry], canon, key) == if canon(entry.key) == key && key != "" then entry.count else 0
    {
      assert [entry][..0] == [];
      assert Total([entry], canon) == Total([], canon) + Counted(entry, canon);
    }
    if b == [] {
      assert a + b == a;
    } else {
      var front := b[..|b| - 1];
      TotalsAddUp(a, front, canon, key);
      assert (a + b)[..|a + b| - 1] == a + front;
    }
  }

  /** The map holds, for each canonical key with something under it, what the entries add up to. */
  ghost predicate Holds(out: map<string, nat>, entries: seq<Count>, canon: string -> string) {
    forall key :: (key in out <==> TotalFor(entries, canon, key) > 0)
        && (key in out ==> out[key] == TotalFor(entries, canon, key))
  }

  /** The loop both parsers share; counts are what the parser's integer reader returned. */
  method ParseCounts(entries: seq<Count>, canon: string -> string) returns (out: map<string, nat>)
    ensures Holds(out, entries, canon)
  {
    out := map[];
    for i := 0 to |entries|
      invariant Holds(out, entries[..i], canon)
    {
      assert entries[..i + 1][..i] == entries[..i];
      if entries[i].count <= 0 {
        continue;
      }
      var key := canon(entries[i].key);
      if key == "" {
        continue;
      }
      out := out[key := (if key in out then out[key] else 0) + entries[i].count];
    }
    assert entries[..|entries|] == entries;
  }

  /** _parse_count_map */
  method BackendCounts(values: seq<(string, Value)>) returns (out: map<string, nat>)
    ensures Holds(out, seq(|values|, i requires 0 <= i < |values| => Count(values[i].0, SafeInt(values[i].1))),
        BackendKey)
  {
    out := ParseCounts(seq(|values|, i requires 0 <= i < |values| => Count(values[i].0, SafeInt(values[i].1))),
        BackendKey);
  }

  /** parseCountMap, with the product keys. */
  method PortalCounts(values: seq<(string, Value)>) returns (out: map<string, nat>)
    ensures Holds(out, seq(|values|, i requires 0 <= i < |values| =>
        Count(values[i].0, NonNegativeInt(values[i].1))), PortalKey)
  {
    out := ParseCounts(seq(|values|, i requires 0 <= i < |values| =>
        Count(values[i].0, NonNegativeInt(values[i].1))), PortalKey);
  }

  // -------------------------------------------------------------- conservation

  ghost function SumOf(m: map<string, nat>): nat
    decreases |m|
  {
    if m == map[] then 0 else var k :| k in m; m[k] + SumOf(m - {k})
  }

  lemma {:induction false} SumWithout(m: map<string, nat>, k: string)
    requires k in m
    ensures SumOf(m) == m[k] + SumOf(m - {k})
    decreases |m|
  {
    var x :| x in m && SumOf(m) == m[x] + SumOf(m - {x});
    if x != k {
      SumWithout(m - {x}, k);
      SumWithout(m - {k}, x);
      assert m - {x} - {k} == m - {k} - {x};
    }
  }

  lemma SumPut(m: map<string, nat>, k: string, v: nat)
    ensures SumOf(m[k := v]) == SumOf(m) - (if k in m then m[k] else 0) + v
  {
    SumWithout(m[k := v], k);
    if k in m {
      SumWithout(m, k);
      assert m[k := v] - {k} == m - {k};
    } else {
      assert m[k := v] - {k} == m;
    }
  }

  ghost function Parsed(entries: seq<Count>, canon: string -> string): map<string, nat> {
    if entries == [] then map[]
    else
      var before := Parsed(entries[..|entries| - 1], canon);
      var last := entries[|entries| - 1];
      var key := canon(last.key);
      if last.count == 0 || key == "" then before
      else before[key := (if key in before then before[key] else 0) + last.count]
  }

  lemma {:induction false} ParsedHolds(entries: seq<Count>, canon: string -> string)
    ensures Holds(Parsed(entries, canon), entries, canon)
  {
    if entries != [] {
      ParsedHolds(entries[..|entries| - 1], canon);
    }
  }

  lemma {:induction false} ParsedAddsUp(entries: seq<Count>, canon: string -> string)
    ensures SumOf(Parsed(entries, canon)) == Total(entries, canon)
  {
    if entries != [] {
      var front := entries[..|entries| - 1];
      var last := entries[|entries| - 1];
      ParsedAddsUp(front, canon);
      var before := Parsed(front, canon);
      var key := canon(last.key);
      SumPut(before, key, (if key in before then before[key] else 0) + last.count);
    }
  }

  lemma HoldsIsUnique(a: map<string, nat>, b: map<string, nat>, entries: seq<Count>, canon: string -> string)
    requires Holds(a, entries, canon) && Holds(b, entries, canon)
    ensures a == b
  {
  }

  /** Main result: a parsed map adds up to the sum of the positive counts under nonempty
      canonical keys, however many aliases merge. */
  lemma ParsingConservesTotals(out: map<string, nat>, entries: seq<Count>, canon: string -> string)
    requires Holds(out, entries, canon)
    ensures SumOf(out) == Total(entries, canon)
  {
    ParsedHolds(entries, canon);
    ParsedAddsUp(entries, canon);
    HoldsIsUnique(out, Parsed(entries, canon), entries, canon);
  }

  // ---------------------------------------------------------------- composition

  /** The entries of a map, in some order. */
  ghost predicate Lists(entries: seq<Count>, m: map<string, nat>) {
    && (forall i | 0 <= i < |entries| :: entries[i].key in m && m[entries[i].key] == entries[i].count)
    && (forall i, j | 0 <= i < j < |entries| :: entries[i].key != entries[j].key)
    && (forall key | key in m :: exists i :: 0 <= i < |entries| && entries[i].key == key)
  }

  lemma {:induction false} FixedKeysKeepTheirCount(entries: seq<Count>, canon: string -> string, key: string)
    requires forall i | 0 <= i < |entries| :: canon(entries[i].key) == entries[i].key != ""
    requires forall i, j | 0 <= i < j < |entries| :: entries[i].key != entries[j].key
    ensures forall i | 0 <= i < |entries| && entries[i].key == key :: TotalFor(entries, canon, key) == entries[i].count
    ensures (forall i | 0 <= i < |entries| :: entries[i].key != key) ==> TotalFor(entries, canon, key) == 0
  {
    if entries != [] {
      FixedKeysKeepTheirCount(entries[..|entries| - 1], canon, key);
    }
  }

  /** Nothing lands under a key that is no entry's canonical key. */
  lemma {:induction false} NothingUnder(entries: seq<Count>, canon: string -> string, key: string)
    requires forall i | 0 <= i < |entries| :: canon(entries[i].key) != key
    ensures TotalFor(entries, canon, key) == 0
  {
    if entries != [] {
      NothingUnder(entries[..|entries| - 1], canon, key);
    }
  }

  ghost predicate BackendParsed(m: map<string, nat>) {
    exists entries: seq<Count> :: Holds(m, entries, BackendKey)
  }

  lemma {:induction false} PositiveTotalHasKey(entries: seq<Count>, canon: string -> string, key: string)
    requires TotalFor(entries, canon, key) > 0
    ensures key != "" && exists i :: 0 <= i < |entries| && canon(entries[i].key) == key
  {
    var last := entries[|entries| - 1];
    var front := entries[..|entries| - 1];
    if !(canon(last.key) == key && Counted(last, canon) > 0) {
      PositiveTotalHasKey(front, canon, key);
      var i :| 0 <= i < |front| && canon(front[i].key) == key;
      assert entries[i] == front[i];
    }
  }

  lemma BackendParsedKeys(m: map<string, nat>, key: string)
    requires BackendParsed(m) && key in m
    ensures key != "" && m[key] > 0 && BackendKey(key) == key
    ensures PortalKey(key) == key <==> !Inherited(key)
  {
    var entries: seq<Count> :| Holds(m, entries, BackendKey);
    PositiveTotalHasKey(entries, BackendKey, key);
    var i :| 0 <= i < |entries| && BackendKey(entries[i].key) == key;
    BackendKeyIsSettled(entries[i].key);
    PortalKeepsBackendKeyIff(entries[i].key);
  }

  /** Main result: a backend-parsed product map is a fixed point of the portal's parser exactly
      when none of its keys is a name every plain object inherits. */
  lemma PortalKeepsBackendMapIff(m: map<string, nat>, entries: seq<Count>, out: map<string, nat>)
    requires BackendParsed(m) && Lists(entries, m) && Holds(out, entries, PortalKey)
    ensures out == m <==> forall key | key in m :: !Inherited(key)
  {
    if key :| key in m && Inherited(key) {
      forall i | 0 <= i < |entries| ensures PortalKey(entries[i].key) != key {
      }
      NothingUnder(entries, PortalKey, key);
      assert key !in out;
    } else {
      forall i | 0 <= i < |entries| ensures PortalKey(entries[i].key) == entries[i].key != "" {
        BackendParsedKeys(m, entries[i].key);
      }
      forall key
        ensures key in out <==> key in m
        ensures key in m ==> TotalFor(entries, PortalKey, key) == m[key]
      {
        FixedKeysKeepTheirCount(entries, PortalKey, key);
        if key in m {
          BackendParsedKeys(m, key);
          var i :| 0 <= i < |entries| && entries[i].key == key;
        }
      }
    }
  }

  /** An input that fails: a product named constructor gets another name in the portal. */
  lemma ConstructorMapDrifts(out: map<string, nat>)
    requires Holds(out, [Count("constructor", 1)], PortalKey)
    ensures BackendParsed(map["constructor" := 1]) && Lists([Count("constructor", 1)], map["constructor" := 1])
    ensures out != map["constructor" := 1]
  {
    var key, m := "constructor", map["constructor" := 1];
    var entries := [Count(key, 1)];
    assert Lower(key) == key;
    assert Stripped(key, StripSpace);
    StripLeavesBare(key, StripSpace);
    assert |"coke"| == 4 && |"cola"| == 4;
    assert BackendKey(key) == key;
    assert entries[..0] == [];
    assert Holds(m, entries, BackendKey);
    assert entries[0].key == key;
    PortalKeepsBackendMapIff(m, entries, out);
  }
}
