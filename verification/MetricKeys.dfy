/**
  Canonical metric keys of the portal's statistics page, on ASCII text
  (web/portal/src/utils/match-stats.ts, canonicalizeMetricKey).
 */
module MetricKeys {
  import opened Prelude
  import opened TextTools
  import opened CountMaps

  const SOLD := "sold:"
  const PRODUCED := "produced:"

  /** Some aliases of a canonical name. */
  datatype AliasGroup = AliasGroup(name: string, aliases: seq<string>)

  /** The aliases looked up first, and those looked up after them. */
  datatype Tables = Tables(numbers: seq<AliasGroup>, marketing: seq<AliasGroup>)

  const MARKETING_ACTIONS := AliasGroup("marketing_actions", [
    "marketing_actions", "marketingActions", "marketing_count", "marketingCount"])
  const HIRED_EMPLOYEES := AliasGroup("hired_employees", [
    "hired_employees", "hiredEmployees", "recruit_count", "recruitCount"])
  const TRAINED_EMPLOYEES := AliasGroup("trained_employees", [
    "trained_employees", "trainedEmployees", "train_count", "trainCount"])
  const HOUSE_BUILT := AliasGroup("house_built", [
    "house_built", "houses_built", "house_build_count", "build_house_count", "place_house_count",
    "house_placement_count"])
  const GARDEN_BUILT := AliasGroup("garden_built", [
    "garden_built", "gardens_built", "build_garden_count", "place_garden_count"])
  const RESTAURANT_BUILT := AliasGroup("restaurant_built", [
    "restaurant_built", "restaurants_built", "place_restaurant_count", "new_restaurant_count"])
  const RESTAURANT_MOVED := AliasGroup("restaurant_moved", [
    "restaurant_moved", "restaurants_moved", "move_restaurant_count"])
  const PROCUREMENT_ACTIONS := AliasGroup("procurement_actions", [
    "procurement_actions", "procurement_count", "procure_count"])
  const LOBBYISTS_ACTIONS := AliasGroup("lobbyists_actions", [
    "lobbyists_actions", "lobbyists_count", "lobbyist_actions"])

  const BILLBOARD := AliasGroup("marketing_type:billboard", [
    "billboard_placements", "billboard_count", "billboard_actions", "place_billboard_count"])
  const MAILBOX := AliasGroup("marketing_type:mailbox", [
    "mailbox_placements", "mailbox_count", "mailbox_actions", "place_mailbox_count"])
  const RADIO := AliasGroup("marketing_type:radio", ["radio_placements", "radio_count", "place_radio_count"])
  const AIRPLANE := AliasGroup("marketing_type:airplane", [
    "airplane_placements", "airplane_count", "place_airplane_count"])
  const GOURMET_GUIDE := AliasGroup("marketing_type:gourmet_guide", [
    "gourmet_guide_placements", "gourmet_guide_count"])
  const GIANT_BILLBOARD := AliasGroup("marketing_type:giant_billboard", [
    "giant_billboard_placements", "giant_billboard_count", "place_giant_billboard_count"])

  /** NUMBER_ALIAS_KEYS, in order. */
  const NUMBERS := [
    MARKETING_ACTIONS, HIRED_EMPLOYEES, TRAINED_EMPLOYEES, HOUSE_BUILT, GARDEN_BUILT,
    RESTAURANT_BUILT, RESTAURANT_MOVED, PROCUREMENT_ACTIONS, LOBBYISTS_ACTIONS]

  /** marketingAlias, its keys grouped by their value. */
  const MARKETING := [BILLBOARD, MAILBOX, RADIO, AIRPLANE, GOURMET_GUIDE, GIANT_BILLBOARD]

  const TABLES := Tables(NUMBERS, MARKETING)

  /** The pattern of a product metric: the prefix, then at least one character, none of them ending a line. */
  predicate ProductMetric(prefix: string, key: string) {
    prefix <= key && |key| > |prefix| && forall i | |prefix| <= i < |key| :: key[i] != '\n' && key[i] != '\r'
  }

  predicate HasAlias(group: AliasGroup, normalized: string) {
    exists i | 0 <= i < |group.aliases| :: Lower(group.aliases[i]) == normalized
  }

  /** The name of the first group with this alias. */
  function GroupName(groups: seq<AliasGroup>, normalized: string): Option<string> {
    if groups == [] then None
    else if HasAlias(groups[0], normalized) then Some(groups[0].name)
    else GroupName(groups[1..], normalized)
  }

  function TableName(tables: Tables, normalized: string): Option<string> {
    var number := GroupName(tables.numbers, normalized);
    if number.Some? then number else GroupName(tables.marketing, normalized)
  }

  /** The lookup behind the product patterns; the last table is a plain object, so an inherited
      name finds an inherited object. None stands for that. */
  function NameKey(tables: Tables, normalized: string): Option<string> {
    var name := TableName(tables, normalized);
    if name.Some? then name else if Inherited(normalized) then None else Some(normalized)
  }

  function Keyed(tables: Tables, normalized: string): Option<string> {
    if ProductMetric(SOLD, normalized) then Some(SOLD + PortalKey(normalized[|SOLD|..]))
    else if ProductMetric(PRODUCED, normalized) then Some(PRODUCED + PortalKey(normalized[|PRODUCED|..]))
    else NameKey(tables, normalized)
  }

  function MetricKey(tables: Tables, key: string): Option<string> {
    Keyed(tables, Lower(key))
  }

  /** canonicalizeMetricKey; None where it returns an inherited object instead of text. */
  function CanonicalizeMetricKey(key: string): Option<string> {
    MetricKey(TABLES, key)
  }

  /** What idempotence needs of the tables: no alias is an inherited name or the bare prefix of a
      product metric; canonical names are in lower case, no product metrics, and canonical themselves. */
  ghost predicate Canonical(tables: Tables) {
    forall alias | TableName(tables, alias).Some? ::
      && alias != SOLD && alias != PRODUCED && !Inherited(alias)
      && CanonicalName(tables, TableName(tables, alias).value)
  }

  predicate CanonicalName(tables: Tables, name: string) {
    && Lower(name) == name
    && !ProductMetric(SOLD, name) && !ProductMetric(PRODUCED, name)
    && !Inherited(name)
    && (TableName(tables, name).Some? ==> TableName(tables, name).value == name)
  }

  /** The part of a metric key that is looked up in a plain object. */
  function LookedUp(key: string): string {
    var normalized := Lower(key);
    if ProductMetric(SOLD, normalized) then Lower(StripEnds(normalized[|SOLD|..], TrimSpace))
    else if ProductMetric(PRODUCED, normalized) then Lower(StripEnds(normalized[|PRODUCED|..], TrimSpace))
    else normalized
  }

  lemma {:induction false} StripTakesPart(s: string, space: char -> bool)
    ensures forall c | c in StripEnds(s, space) :: c in s
    decreases |s|
  {
    if s == "" {
    } else if space(s[0]) {
      StripTakesPart(s[1..], space);
    } else if space(s[|s| - 1]) {
      StripTakesPart(s[..|s| - 1], space);
    }
  }

  /** A looked-up product name ends no line the metric did not end. */
  lemma PortalKeyTakesPart(value: string)
    ensures forall c | c in PortalKey(value) :: (c == '\n' || c == '\r') ==> c in value
  {
    var stripped := StripEnds(value, TrimSpace);
    var normalized := Lower(stripped);
    StripTakesPart(value, TrimSpace);
    forall c | c in normalized && (c == '\n' || c == '\r') ensures c in value {
      var i :| 0 <= i < |normalized| && normalized[i] == c;
      assert stripped[i] == c;
      assert c in stripped;
    }
  }

  /** A looked-up product name that is not inherited is its own key. */
  lemma PortalKeySettles(value: string)
    requires !Inherited(Lower(StripEnds(value, TrimSpace)))
    ensures Lower(PortalKey(value)) == PortalKey(value) && PortalKey(PortalKey(value)) == PortalKey(value)
  {
    var stripped := StripEnds(value, TrimSpace);
    var normalized := Lower(stripped);
    StripLeavesBare(value, TrimSpace);
    assert Stripped(normalized, TrimSpace);
    LowerTwice(stripped);
    StripLeavesBare(normalized, TrimSpace);
    SodaIsPlain();
    StripLeavesBare("soda", TrimSpace);
  }

  /** An inherited product name turns into text that does not canonicalise to itself. */
  lemma InheritedDrifts(value: string)
    requires Inherited(Lower(StripEnds(value, TrimSpace)))
    ensures PortalKey(Lower(PortalKey(value))) != PortalKey(value)
  {
    var text := PortalKey(value);
    assert text == "function Object() { [native code] }" || text == "[object Object]";
    var at := if text[0] == '[' then 8 else 9;
    assert text[at] == 'O';
    assert Lower(text)[at] == 'o';
    assert Lower(text)[0] == text[0] && Lower(text)[|text| - 1] == text[|text| - 1];
    assert StripEnds(Lower(text), TrimSpace) == Lower(text);
    LowerTwice(text);
  }

  lemma ProductPartEndsNoLine(prefix: string, rest: string, p: string)
    requires ProductMetric(prefix, prefix + rest)
    requires forall c | c in p :: (c == '\n' || c == '\r') ==> c in rest
    ensures forall i | 0 <= i < |p| :: p[i] != '\n' && p[i] != '\r'
  {
    forall c | c in rest ensures c != '\n' && c != '\r' {
      var j :| 0 <= j < |rest| && rest[j] == c;
      assert (prefix + rest)[|prefix| + j] == c;
    }
    forall i | 0 <= i < |p| ensures p[i] != '\n' && p[i] != '\r' {
      assert p[i] in p;
    }
  }

  lemma LowerPrefixed(prefix: string, p: string)
    requires prefix == SOLD || prefix == PRODUCED
    ensures Lower(prefix + p) == prefix + Lower(p)
  {
  }

  lemma StartsDiffer(key: string)
    requires PRODUCED <= key
    ensures !(SOLD <= key)
  {
    assert SOLD[0] == 's' && key[0] == PRODUCED[0] == 'p';
  }

  lemma KeyedProduct(tables: Tables, prefix: string, q: string)
    requires prefix == SOLD || prefix == PRODUCED
    requires ProductMetric(prefix, prefix + q)
    ensures Keyed(tables, prefix + q) == Some(prefix + PortalKey(q))
  {
    var key := prefix + q;
    assert key[|prefix|..] == q;
    if prefix == PRODUCED {
      StartsDiffer(key);
    }
  }

  lemma MetricOfProduct(tables: Tables, prefix: string, p: string)
    requires (prefix == SOLD || prefix == PRODUCED) && p != ""
    requires forall i | 0 <= i < |p| :: p[i] != '\n' && p[i] != '\r'
    ensures MetricKey(tables, prefix + p) == Some(prefix + PortalKey(Lower(p)))
  {
    LowerPrefixed(prefix, p);
    KeyedProduct(tables, prefix, Lower(p));
  }

  lemma MetricOfPrefix(tables: Tables, prefix: string)
    requires Canonical(tables) && (prefix == SOLD || prefix == PRODUCED)
    ensures MetricKey(tables, prefix) == Some(prefix)
  {
    assert SOLD[0] == 's' && PRODUCED[0] == 'p' && |SOLD| == 5 && |PRODUCED| == 9;
    assert Lower(prefix) == prefix;
    assert |"constructor"| == 11 && "__proto__"[0] == '_';
  }

  lemma ProductMetricSettles(tables: Tables, prefix: string, rest: string)
    requires Canonical(tables) && (prefix == SOLD || prefix == PRODUCED)
    requires ProductMetric(prefix, prefix + rest) && Lower(rest) == rest
    ensures MetricKey(tables, prefix + PortalKey(rest)) == Some(prefix + PortalKey(rest)) <==>
        !Inherited(Lower(StripEnds(rest, TrimSpace)))
  {
    var p := PortalKey(rest);
    PortalKeyTakesPart(rest);
    if !Inherited(Lower(StripEnds(rest, TrimSpace))) {
      PortalKeySettles(rest);
    }
    ProductPartEndsNoLine(prefix, rest, p);
    if p == "" {
      assert prefix + p == prefix;
      MetricOfPrefix(tables, prefix);
    } else {
      MetricOfProduct(tables, prefix, p);
      if Inherited(Lower(StripEnds(rest, TrimSpace))) {
        InheritedDrifts(rest);
        assert (prefix + PortalKey(Lower(p)))[|prefix|..] == PortalKey(Lower(p));
        assert (prefix + p)[|prefix|..] == p;
      }
    }
  }

  lemma LowerRest(key: string, prefix: string)
    requires prefix <= Lower(key)
    ensures Lower(Lower(key)[|prefix|..]) == Lower(key)[|prefix|..]
  {
  }

  lemma IdempotentIff(tables: Tables, key: string)
    requires Canonical(tables)
    ensures (MetricKey(tables, key).Some? && MetricKey(tables, MetricKey(tables, key).value) == MetricKey(tables, key))
            <==> !Inherited(LookedUp(key))
  {
    var normalized := Lower(key);
    LowerTwice(key);
    if ProductMetric(SOLD, normalized) {
      var rest := normalized[|SOLD|..];
      assert normalized == SOLD + rest;
      LowerRest(key, SOLD);
      ProductMetricSettles(tables, SOLD, rest);
    } else if ProductMetric(PRODUCED, normalized) {
      var rest := normalized[|PRODUCED|..];
      assert normalized == PRODUCED + rest;
      LowerRest(key, PRODUCED);
      ProductMetricSettles(tables, PRODUCED, rest);
    }
  }

  // ------------------------------------------------------------- the real tables

  /** A first letter and a length that of all aliases looked up among the numbers only canonical names have. */
  predicate NumberShape(s: string) {
    s != "" &&
    match |s|
    case 11 => s[0] == 'h'
    case 12 => s[0] == 'g'
    case 15 => s[0] == 'h'
    case 16 => s[0] == 'r'
    case 17 => s[0] == 'm' || s[0] == 't' || s[0] == 'l'
    case 19 => s[0] == 'p'
    case _ => false
  }

  /** The shape of canonical marketing names. */
  predicate MarketingShape(s: string) {
    |s| > 15 && s[14] == ':'
  }

  /** What every alias looks like, in lower case. */
  predicate AliasShape(s: string) {
    && |s| >= 10 && s[0] != 'c' && s[0] != '_' && s[0] != 's' && (s[0] == 'p' ==> s[3] == 'c')
    && !MarketingShape(s)
  }

  predicate NameShape(s: string) {
    Lower(s) == s && |s| >= 10 && s[0] != 'c' && s[0] != '_' && s[0] != 's' && (s[0] == 'p' ==> s[3] == 'c')
  }

  /** A group of the numbers: each alias is the name or lacks its shape, and the name is an alias. */
  predicate NumberGroup(group: AliasGroup) {
    && NameShape(group.name) && NumberShape(group.name) && !MarketingShape(group.name)
    && HasAlias(group, group.name)
    && forall i | 0 <= i < |group.aliases| ::
         && AliasShape(Lower(group.aliases[i]))
         && (Lower(group.aliases[i]) == group.name || !NumberShape(Lower(group.aliases[i])))
  }

  predicate MarketingGroup(group: AliasGroup) {
    && NameShape(group.name) && MarketingShape(group.name)
    && forall i | 0 <= i < |group.aliases| :: AliasShape(Lower(group.aliases[i]))
  }

  ghost predicate Shaped(tables: Tables) {
    && (forall group | group in tables.numbers :: NumberGroup(group))
    && (forall group | group in tables.marketing :: MarketingGroup(group))
  }

  lemma {:induction false} GroupFound(groups: seq<AliasGroup>, normalized: string)
    ensures match GroupName(groups, normalized)
      case Some(name) => exists i | 0 <= i < |groups| :: groups[i].name == name && HasAlias(groups[i], normalized)
      case None => forall i | 0 <= i < |groups| :: !HasAlias(groups[i], normalized)
  {
    if groups != [] && !HasAlias(groups[0], normalized) {
      GroupFound(groups[1..], normalized);
      if GroupName(groups, normalized).Some? {
        var i :| 0 <= i < |groups[1..]| && groups[1..][i].name == GroupName(groups, normalized).value
                 && HasAlias(groups[1..][i], normalized);
        assert groups[i + 1] == groups[1..][i];
      } else {
        assert forall i | 0 < i < |groups| :: groups[i] == groups[1..][i - 1];
      }
    }
  }

  /** A name of the right shape that a number group goes by goes by no other name. */
  lemma NumberNameStays(tables: Tables, group: AliasGroup)
    requires Shaped(tables) && group in tables.numbers
    ensures CanonicalName(tables, group.name)
  {
    GroupFound(tables.numbers, group.name);
    var k :| 0 <= k < |tables.numbers| && tables.numbers[k] == group;
    assert NumberGroup(group);
    assert HasAlias(tables.numbers[k], group.name);
    var found := GroupName(tables.numbers, group.name).value;
    var i :| 0 <= i < |tables.numbers| && tables.numbers[i].name == found && HasAlias(tables.numbers[i], group.name);
    assert NumberGroup(tables.numbers[i]);
  }

  lemma MarketingNameStays(tables: Tables, group: AliasGroup)
    requires Shaped(tables) && group in tables.marketing
    ensures CanonicalName(tables, group.name)
  {
    var k :| 0 <= k < |tables.marketing| && tables.marketing[k] == group;
    assert MarketingGroup(group);
    GroupFound(tables.numbers, group.name);
    GroupFound(tables.marketing, group.name);
    forall i | 0 <= i < |tables.numbers| ensures !HasAlias(tables.numbers[i], group.name) {
      assert NumberGroup(tables.numbers[i]);
    }
    forall i | 0 <= i < |tables.marketing| ensures !HasAlias(tables.marketing[i], group.name) {
      assert MarketingGroup(tables.marketing[i]);
    }
  }

  lemma AliasIsPlain(alias: string)
    requires AliasShape(alias)
    ensures alias != SOLD && alias != PRODUCED && !Inherited(alias)
    ensures !ProductMetric(SOLD, alias) && !ProductMetric(PRODUCED, alias)
  {
    assert |SOLD| == 5 && |PRODUCED| == 9 && SOLD[0] == 's' && PRODUCED[0] == 'p' && PRODUCED[3] == 'd';
    assert "constructor"[0] == 'c' && "__proto__"[0] == '_';
  }

  lemma ShapedIsCanonical(tables: Tables)
    requires Shaped(tables)
    ensures Canonical(tables)
  {
    forall alias | TableName(tables, alias).Some?
      ensures alias != SOLD && alias != PRODUCED && !Inherited(alias)
      ensures CanonicalName(tables, TableName(tables, alias).value)
    {
      GroupFound(tables.numbers, alias);
      GroupFound(tables.marketing, alias);
      var name := TableName(tables, alias).value;
      if GroupName(tables.numbers, alias).Some? {
        var i :| 0 <= i < |tables.numbers| && tables.numbers[i].name == name && HasAlias(tables.numbers[i], alias);
        assert NumberGroup(tables.numbers[i]);
        NumberNameStays(tables, tables.numbers[i]);
      } else {
        var i :| 0 <= i < |tables.marketing| && tables.marketing[i].name == name
            && HasAlias(tables.marketing[i], alias);
        assert MarketingGroup(tables.marketing[i]);
        MarketingNameStays(tables, tables.marketing[i]);
      }
      AliasIsPlain(alias);
    }
  }

  /** An alias as it is written: lower-casing it keeps its first letter, and its colon if it has one. */
  predicate WrittenAlias(s: string) {
    AliasShape(s) && 'a' <= s[0] <= 'z'
  }

  /** A group of the numbers that starts with its name, its other aliases out of the names' shape. */
  predicate WrittenNumbers(group: AliasGroup) {
    && NameShape(group.name) && NumberShape(group.name) && WrittenAlias(group.name)
    && group.aliases != [] && group.aliases[0] == group.name
    && forall i | 1 <= i < |group.aliases| :: WrittenAlias(group.aliases[i]) && !NumberShape(group.aliases[i])
  }

  lemma WrittenNumbersAreShaped(group: AliasGroup)
    requires WrittenNumbers(group)
    ensures NumberGroup(group)
  {
    assert Lower(group.aliases[0]) == group.name;
    forall i | 0 <= i < |group.aliases|
      ensures AliasShape(Lower(group.aliases[i]))
      ensures Lower(group.aliases[i]) == group.name || !NumberShape(Lower(group.aliases[i]))
    {
    }
  }

  lemma MarketingActionsShaped()
    ensures NumberGroup(MARKETING_ACTIONS)
  {
    WrittenNumbersAreShaped(MARKETING_ACTIONS);
  }

  lemma HiredEmployeesShaped()
    ensures NumberGroup(HIRED_EMPLOYEES)
  {
    WrittenNumbersAreShaped(HIRED_EMPLOYEES);
  }

  lemma TrainedEmployeesShaped()
    ensures NumberGroup(TRAINED_EMPLOYEES)
  {
    WrittenNumbersAreShaped(TRAINED_EMPLOYEES);
  }

  lemma HouseBuiltShaped()
    ensures NumberGroup(HOUSE_BUILT)
  {
    WrittenNumbersAreShaped(HOUSE_BUILT);
  }

  lemma GardenBuiltShaped()
    ensures NumberGroup(GARDEN_BUILT)
  {
    WrittenNumbersAreShaped(GARDEN_BUILT);
  }

  lemma RestaurantBuiltShaped()
    ensures NumberGroup(RESTAURANT_BUILT)
  {
    WrittenNumbersAreShaped(RESTAURANT_BUILT);
  }

  lemma RestaurantMovedShaped()
    ensures NumberGroup(RESTAURANT_MOVED)
  {
    WrittenNumbersAreShaped(RESTAURANT_MOVED);
  }

  lemma ProcurementActionsShaped()
    ensures NumberGroup(PROCUREMENT_ACTIONS)
  {
    WrittenNumbersAreShaped(PROCUREMENT_ACTIONS);
  }

  lemma LobbyistsActionsShaped()
    ensures NumberGroup(LOBBYISTS_ACTIONS)
  {
    WrittenNumbersAreShaped(LOBBYISTS_ACTIONS);
  }

  lemma BillboardShaped()
    ensures MarketingGroup(BILLBOARD)
  {
  }

  lemma MailboxShaped()
    ensures MarketingGroup(MAILBOX)
  {
  }

  lemma RadioShaped()
    ensures MarketingGroup(RADIO)
  {
  }

  lemma AirplaneShaped()
    ensures MarketingGroup(AIRPLANE)
  {
  }

  lemma GourmetGuideShaped()
    ensures MarketingGroup(GOURMET_GUIDE)
  {
  }

  lemma GiantBillboardShaped()
    ensures MarketingGroup(GIANT_BILLBOARD)
  {
  }

  lemma NumbersAreShaped()
    ensures forall group | group in NUMBERS :: NumberGroup(group)
  {
    MarketingActionsShaped();
    HiredEmployeesShaped();
    TrainedEmployeesShaped();
    HouseBuiltShaped();
    GardenBuiltShaped();
    RestaurantBuiltShaped();
    RestaurantMovedShaped();
    ProcurementActionsShaped();
    LobbyistsActionsShaped();
  }

  lemma MarketingIsShaped()
    ensures forall group | group in MARKETING :: MarketingGroup(group)
  {
    BillboardShaped();
    MailboxShaped();
    RadioShaped();
    AirplaneShaped();
    GourmetGuideShaped();
    GiantBillboardShaped();
  }

  lemma TablesAreCanonical()
    ensures Canonical(TABLES)
  {
    NumbersAreShaped();
    MarketingIsShaped();
    ShapedIsCanonical(TABLES);
  }

  // --------------------------------------------------- every alias has its name

  /** The number of the group an alias is in, told from its length and a few of its letters; the numbers' groups
      come before the marketing ones. */
  function GroupByShape(s: string): int {
    match |s|
    case 10 => 2
    case 11 =>
      if s[0] == 'r' then 11
      else if s[0] == 't' then 2
      else 3
    case 12 =>
      if s[0] == 'h' then 3
      else if s[0] == 'r' then 1
      else 4
    case 13 =>
      if s[0] == 'm' then 10
      else if s[0] == 'p' then 7
      else if s[0] == 'r' then 1
      else 4
    case 14 =>
      if s[0] == 'h' then 1
      else if s[0] == 'm' then 0
      else 12
    case 15 =>
      if s[0] == 'h' then 1
      else if s[0] == 'l' then 8
      else if s[0] == 'm' && s[6] == 'i' then 0
      else if s[0] == 'm' && s[6] == 'x' then 10
      else 9
    case 16 =>
      if s[0] == 'm' then 0
      else if s[0] == 'r' && s[6] == 'p' then 11
      else if s[0] == 'r' && s[6] == 'r' && s[11] == 'b' then 5
      else if s[0] == 'r' && s[6] == 'r' && s[11] == 'm' then 6
      else if s[0] == 't' then 2
      else 8
    case 17 =>
      if s[0] == 'b' && s[6] == 'a' then 9
      else if s[0] == 'l' then 8
      else if s[0] == 'm' then 0
      else if s[0] == 'p' && s[6] == 'e' then 7
      else if s[0] == 'p' && s[6] == 'r' then 11
      else if s[0] == 'r' && s[12] == 'b' then 5
      else if s[0] == 'r' && s[12] == 'm' then 6
      else if s[0] == 't' then 2
      else 3
    case 18 =>
      if s[0] == 'm' then 10
      else 4
    case 19 =>
      if s[0] == 'g' then 13
      else if s[0] == 'p' && s[6] == 'e' then 7
      else if s[0] == 'p' && s[6] == 'm' then 10
      else 12
    case 20 =>
      if s[0] == 'n' then 5
      else if s[0] == 'p' then 12
      else 9
    case 21 =>
      if s[0] == 'h' then 3
      else if s[0] == 'm' then 6
      else if s[0] == 'p' then 9
      else 14
    case 22 => 5
    case 24 => 13
    case 26 => 14
    case 27 => 14
    case _ => -1
  }

  /** The group's aliases have its number. */
  predicate Numbered(group: AliasGroup, number: int) {
    forall i | 0 <= i < |group.aliases| :: GroupByShape(Lower(group.aliases[i])) == number
  }

  lemma TrainedEmployeesNumbered()
    ensures Numbered(TRAINED_EMPLOYEES, 2)
  {
  }

  lemma HouseBuiltNumbered()
    ensures Numbered(HOUSE_BUILT, 3)
  {
  }

  lemma GardenBuiltNumbered()
    ensures Numbered(GARDEN_BUILT, 4)
  {
  }

  lemma RestaurantBuiltNumbered()
    ensures Numbered(RESTAURANT_BUILT, 5)
  {
  }

  lemma RestaurantMovedNumbered()
    ensures Numbered(RESTAURANT_MOVED, 6)
  {
  }

  lemma ProcurementActionsNumbered()
    ensures Numbered(PROCUREMENT_ACTIONS, 7)
  {
  }

  lemma LobbyistsActionsNumbered()
    ensures Numbered(LOBBYISTS_ACTIONS, 8)
  {
  }

  lemma BillboardNumbered()
    ensures Numbered(BILLBOARD, 9)
  {
  }

  lemma MailboxNumbered()
    ensures Numbered(MAILBOX, 10)
  {
  }

  lemma RadioNumbered()
    ensures Numbered(RADIO, 11)
  {
  }

  lemma AirplaneNumbered()
    ensures Numbered(AIRPLANE, 12)
  {
  }

  lemma GourmetGuideNumbered()
    ensures Numbered(GOURMET_GUIDE, 13)
  {
  }

  lemma GiantBillboardNumbered()
    ensures Numbered(GIANT_BILLBOARD, 14)
  {
  }

  lemma NumbersNumbered()
    ensures forall i | 0 <= i < |NUMBERS| :: Numbered(NUMBERS[i], i)
  {
    TrainedEmployeesNumbered();
    HouseBuiltNumbered();
    GardenBuiltNumbered();
    RestaurantBuiltNumbered();
    RestaurantMovedNumbered();
    ProcurementActionsNumbered();
    LobbyistsActionsNumbered();
  }

  lemma MarketingNumbered()
    ensures forall i | 0 <= i < |MARKETING| :: Numbered(MARKETING[i], |NUMBERS| + i)
  {
    BillboardNumbered();
    MailboxNumbered();
    RadioNumbered();
    AirplaneNumbered();
    GourmetGuideNumbered();
    GiantBillboardNumbered();
  }

  /** A lookup finds the group whose number the key has. */
  lemma GroupHasNumber(groups: seq<AliasGroup>, first: int, key: string)
    requires forall i | 0 <= i < |groups| :: Numbered(groups[i], first + i)
    ensures GroupName(groups, key).Some? ==>
      && 0 <= GroupByShape(key) - first < |groups|
      && GroupName(groups, key).value == groups[GroupByShape(key) - first].name
  {
    GroupFound(groups, key);
    if GroupName(groups, key).Some? {
      var i :| 0 <= i < |groups| && groups[i].name == GroupName(groups, key).value && HasAlias(groups[i], key);
      assert Numbered(groups[i], first + i);
    }
  }

  lemma AliasHasNumber(groups: seq<AliasGroup>, first: int, i: nat, key: string)
    requires i < |groups| && HasAlias(groups[i], key) && Numbered(groups[i], first + i)
    ensures GroupByShape(key) == first + i && GroupName(groups, key).Some?
  {
    GroupFound(groups, key);
  }

  /** Main result, over any two tables whose groups are told apart by shape: every alias, in whatever case, stands
      for the name of its group. */
  lemma AliasesStand(tables: Tables, group: AliasGroup, key: string)
    requires Shaped(tables)
    requires forall i | 0 <= i < |tables.numbers| :: Numbered(tables.numbers[i], i)
    requires forall i | 0 <= i < |tables.marketing| :: Numbered(tables.marketing[i], |tables.numbers| + i)
    requires (group in tables.numbers || group in tables.marketing) && HasAlias(group, Lower(key))
    ensures MetricKey(tables, key) == Some(group.name)
  {
    var normalized, n := Lower(key), |tables.numbers|;
    GroupHasNumber(tables.numbers, 0, normalized);
    GroupHasNumber(tables.marketing, n, normalized);
    if group in tables.numbers {
      var i :| 0 <= i < n && tables.numbers[i] == group;
      AliasHasNumber(tables.numbers, 0, i, normalized);
      assert NumberGroup(group);
    } else {
      var i :| 0 <= i < |tables.marketing| && tables.marketing[i] == group;
      AliasHasNumber(tables.marketing, n, i, normalized);
      assert MarketingGroup(group);
    }
    AliasIsPlain(normalized);
  }

  /** Main result: every alias of the real tables, in whatever case, stands for the name of its group. */
  lemma AliasesStandForTheirName(group: AliasGroup, key: string)
    requires (group in TABLES.numbers || group in TABLES.marketing) && HasAlias(group, Lower(key))
    ensures CanonicalizeMetricKey(key) == Some(group.name)
  {
    NumbersAreShaped();
    MarketingIsShaped();
    NumbersNumbered();
    MarketingNumbered();
    AliasesStand(TABLES, group, key);
  }

  /** marketingTypeNumericAliases: the keys under which buildMetricMap looks for a number of each kind. */
  const NUMERIC := [
    AliasGroup("billboard", ["billboard_placements", "billboard_count", "place_billboard_count"]),
    AliasGroup("mailbox", ["mailbox_placements", "mailbox_count", "place_mailbox_count"]),
    AliasGroup("radio", ["radio_placements", "radio_count", "place_radio_count"]),
    AliasGroup("airplane", ["airplane_placements", "airplane_count", "place_airplane_count"]),
    AliasGroup("gourmet_guide", ["gourmet_guide_placements", "gourmet_guide_count"]),
    AliasGroup("giant_billboard", [
      "giant_billboard_placements", "giant_billboard_count", "place_giant_billboard_count"])]

  /** The first group's aliases are among the second's. */
  predicate Within(group: AliasGroup, all: AliasGroup) {
    forall i | 0 <= i < |group.aliases| :: HasAlias(all, Lower(group.aliases[i]))
  }

  lemma SharedAlias(group: AliasGroup, j: nat, key: string)
    requires j < |group.aliases| && group.aliases[j] == key
    ensures HasAlias(group, Lower(key))
  {
  }

  lemma NumericBillboard()
    ensures Within(NUMERIC[0], MARKETING[0])
  {
    SharedAlias(BILLBOARD, 0, NUMERIC[0].aliases[0]);
    SharedAlias(BILLBOARD, 1, NUMERIC[0].aliases[1]);
    SharedAlias(BILLBOARD, 3, NUMERIC[0].aliases[2]);
  }

  lemma NumericMailbox()
    ensures Within(NUMERIC[1], MARKETING[1])
  {
    SharedAlias(MAILBOX, 0, NUMERIC[1].aliases[0]);
    SharedAlias(MAILBOX, 1, NUMERIC[1].aliases[1]);
    SharedAlias(MAILBOX, 3, NUMERIC[1].aliases[2]);
  }

  lemma NumericIsWithin()
    ensures |NUMERIC| == |MARKETING| && forall k | 0 <= k < |NUMERIC| :: Within(NUMERIC[k], MARKETING[k])
  {
    NumericBillboard();
    NumericMailbox();
  }

  lemma NumericKindsAreNamed()
    ensures |NUMERIC| == |MARKETING|
    ensures forall k | 0 <= k < |NUMERIC| :: "marketing_type:" + NUMERIC[k].name == MARKETING[k].name
  {
  }

  /** Main result: each key under which a number of a kind is looked for is, as a metric of its own, that
      kind's metric. */
  lemma NumericAliasesAgree(k: nat, i: nat)
    requires k < |NUMERIC| && i < |NUMERIC[k].aliases|
    ensures CanonicalizeMetricKey(NUMERIC[k].aliases[i]) == Some("marketing_type:" + NUMERIC[k].name)
  {
    NumericIsWithin();
    NumericKindsAreNamed();
    AliasesStandForTheirName(MARKETING[k], NUMERIC[k].aliases[i]);
  }

  /** Main result: a key that is no alias keeps its lower-case text, unless it names a product, whose name is
      canonicalised, or an inherited property. */
  lemma OtherKeysAreKept(key: string)
    requires forall group | group in TABLES.numbers || group in TABLES.marketing :: !HasAlias(group, Lower(key))
    ensures var normalized := Lower(key);
      CanonicalizeMetricKey(key) ==
        if ProductMetric(SOLD, normalized) then Some("sold:" + PortalKey(normalized[5..]))
        else if ProductMetric(PRODUCED, normalized) then Some("produced:" + PortalKey(normalized[9..]))
        else if Inherited(normalized) then None
        else Some(normalized)
  {
    GroupFound(TABLES.numbers, Lower(key));
    GroupFound(TABLES.marketing, Lower(key));
  }

  /** Main result: canonicalising a metric key twice is canonicalising it once, exactly when the
      key does not look an inherited name up. */
  lemma MetricKeyIsIdempotentIff(key: string)
    ensures (CanonicalizeMetricKey(key).Some?
             && CanonicalizeMetricKey(CanonicalizeMetricKey(key).value) == CanonicalizeMetricKey(key))
            <==> !Inherited(LookedUp(key))
  {
    TablesAreCanonical();
    IdempotentIff(TABLES, key);
  }

  /** An input that fails: this key comes back as an inherited object. */
  lemma ConstructorHasNoMetricKey()
    ensures CanonicalizeMetricKey("constructor").None? && Inherited(LookedUp("constructor"))
  {
    var key := "constructor";
    assert Lower(key) == key;
    assert SOLD[0] == 's' && PRODUCED[0] == 'p' && key[0] == 'c';
    TablesAreCanonical();
  }
}
