/** Two configuration-policy handlers, as their unit tests fix them.

    A string-mapping-list handler reads a list of strings and writes to its
    preference the list of values those strings map to, dropping (and
    reporting) strings it does not know. An integer-range handler accepts an
    integer within [min, max]; outside the range it either rejects the
    value or, when clamping, accepts it with a warning and writes it clamped
    to the nearest bound. The percentage-to-double handler checks exactly as
    the integer-range handler does. */
module PolicyHandlers {
  import opened Wrappers

  /** A policy value: the value kinds the handlers meet. */
  datatype Value = IntValue(i: int) | StringValue(s: string) | ListValue(items: seq<Value>)

  datatype ErrorKind = TypeError | OutOfRange

  /** An entry of the policy error map, keyed by policy name; `index` is
      the list position an entry error is about. */
  datatype PolicyError = PolicyError(policy: string, index: Option<nat>, kind: ErrorKind)

  /** The outcome of checking a policy: whether the value is accepted and
      the errors (warnings included) recorded for it. */
  datatype CheckResult = CheckResult(accepted: bool, errors: seq<PolicyError>)

  // ---------------------------------------------------------------------
  // String mapping list
  // ---------------------------------------------------------------------

  datatype MappingEntry = MappingEntry(name: string, mapped: int)

  datatype StringMappingListHandler = StringMappingListHandler(
    policyName: string,
    prefName: string,
    mapping: seq<MappingEntry>)

  /** The value the first mapping entry with this name maps to. */
  function Map(mapping: seq<MappingEntry>, name: string): (r: Option<int>)
    ensures r.Some? <==> exists k :: 0 <= k < |mapping| && mapping[k].name == name
    ensures r.Some? ==> exists k :: 0 <= k < |mapping| && mapping[k].name == name && mapping[k].mapped == r.value
    ensures r.Some? ==>
      exists k ::
        && 0 <= k < |mapping| && mapping[k].name == name && mapping[k].mapped == r.value
        && forall j :: 0 <= j < k ==> mapping[j].name != name
    decreases |mapping|
  {
    if |mapping| == 0 then None
    else if mapping[0].name == name then Some(mapping[0].mapped)
    else
      var r := Map(mapping[1..], name);
      assert forall k :: 1 <= k < |mapping| ==> mapping[k] == mapping[1..][k - 1];
      r
  }

  /** The list entry maps to something. */
  predicate Known(mapping: seq<MappingEntry>, v: Value) {
    v.StringValue? && Map(mapping, v.s).Some?
  }

  /** Maps the entries from position `from` on: known strings become their
      values, in order; every other entry is dropped and reported with its
      position. */
  function MapEntries(h: StringMappingListHandler, items: seq<Value>, from: nat): (r: (seq<int>, seq<PolicyError>))
    requires from <= |items|
    ensures |r.0| + |r.1| == |items| - from
    ensures forall e :: e in r.1 ==> e.policy == h.policyName && e.index.Some? && from <= e.index.value < |items|
    ensures (forall j :: from <= j < |items| ==> Known(h.mapping, items[j])) <==> r.1 == []
    ensures forall e :: e in r.1 ==>
      && e.index.Some? && from <= e.index.value < |items|
      && !Known(h.mapping, items[e.index.value])
      && e.kind == (if items[e.index.value].StringValue? then OutOfRange else TypeError)
    ensures forall j :: from <= j < |items| && !items[j].StringValue? ==>
      PolicyError(h.policyName, Some(j), TypeError) in r.1
    ensures forall j :: from <= j < |items| && items[j].StringValue? && !Known(h.mapping, items[j]) ==>
      PolicyError(h.policyName, Some(j), OutOfRange) in r.1
    decreases |items| - from
  {
    if from == |items| then ([], [])
    else
      var (values, errors) := MapEntries(h, items, from + 1);
      var item := items[from];
      if item.StringValue? && Map(h.mapping, item.s).Some? then
        ([Map(h.mapping, item.s).value] + values, errors)
      else
        var kind := if item.StringValue? then OutOfRange else TypeError;
        (values, [PolicyError(h.policyName, Some(from), kind)] + errors)
  }

  /** Shared by check and apply: a non-list is refused with a type error;
      a list is accepted, and yields its mapped values. */
  function CheckAndGetList(h: StringMappingListHandler, v: Value): (r: (bool, seq<PolicyError>, seq<int>))
    ensures !r.0 <==> !v.ListValue?
    ensures !r.0 ==> r.1 == [PolicyError(h.policyName, None, TypeError)] && r.2 == []
    ensures r.0 ==> (r.1 == [] <==> forall j :: 0 <= j < |v.items| ==> Known(h.mapping, v.items[j]))
    ensures forall e :: e in r.1 ==> e.policy == h.policyName
  {
    match v
    case ListValue(items) =>
      var (values, errors) := MapEntries(h, items, 0);
      (true, errors, values)
    case _ => (false, [PolicyError(h.policyName, None, TypeError)], [])
  }

  function CheckStringMappingList(h: StringMappingListHandler, v: Value): (r: CheckResult)
    ensures r.accepted <==> v.ListValue?
    ensures !r.accepted ==> r.errors != []
    ensures r.accepted ==> (r.errors == [] <==> forall j :: 0 <= j < |v.items| ==> Known(h.mapping, v.items[j]))
    ensures forall e :: e in r.errors ==> e.policy == h.policyName
  {
    var (ok, errors, _) := CheckAndGetList(h, v);
    CheckResult(ok, errors)
  }

  /** The preference value written: the mapped list, or nothing for a
      value that is not a list. */
  function ApplyStringMappingList(h: StringMappingListHandler, v: Value): (r: Option<seq<int>>)
    ensures r.Some? <==> v.ListValue?
    ensures r.Some? ==> r.value == KnownValues(h.mapping, v.items)
  {
    var (ok, _, values) := CheckAndGetList(h, v);
    if ok then
      MapEntriesAreKnownValues(h, v.items, 0);
      Some(values)
    else None
  }

  /** Reference definition: the values of the known strings, in list order. */
  function KnownValues(mapping: seq<MappingEntry>, items: seq<Value>): seq<int>
    decreases |items|
  {
    if |items| == 0 then []
    else
      (if Known(mapping, items[0]) then [Map(mapping, items[0].s).value] else [])
      + KnownValues(mapping, items[1..])
  }

  lemma {:induction false} MapEntriesAreKnownValues(h: StringMappingListHandler, items: seq<Value>, from: nat)
    requires from <= |items|
    ensures MapEntries(h, items, from).0 == KnownValues(h.mapping, items[from..])
    decreases |items| - from
  {
    if from < |items| {
      MapEntriesAreKnownValues(h, items, from + 1);
      assert items[from..][1..] == items[from + 1..];
    }
  }

  /** Appending a string to the list appends its value to the written list
      when the string is known, and leaves the written list unchanged
      otherwise. */
  lemma {:induction false} AppendExtendsApplied(mapping: seq<MappingEntry>, items: seq<Value>, x: Value)
    ensures KnownValues(mapping, items + [x]) ==
      KnownValues(mapping, items) + (if Known(mapping, x) then [Map(mapping, x.s).value] else [])
    decreases |items|
  {
    if |items| == 0 {
      assert KnownValues(mapping, [x][1..]) == [];
    } else {
      assert (items + [x])[1..] == items[1..] + [x];
      AppendExtendsApplied(mapping, items[1..], x);
    }
  }

  /** Every written value is the image of some known string in the list. */
  lemma {:induction false} AppliedValuesAreMapped(mapping: seq<MappingEntry>, items: seq<Value>)
    ensures |KnownValues(mapping, items)| <= |items|
    ensures forall n :: n in KnownValues(mapping, items) ==>
      exists j, k :: 0 <= j < |items| && 0 <= k < |mapping| &&
        items[j] == StringValue(mapping[k].name) && mapping[k].mapped == n
    decreases |items|
  {
    if |items| > 0 {
      AppliedValuesAreMapped(mapping, items[1..]);
      forall n | n in KnownValues(mapping, items)
        ensures exists j, k ::
                  0 <= j < |items| && 0 <= k < |mapping| &&
                  items[j] == StringValue(mapping[k].name) && mapping[k].mapped == n
      {
        if n in KnownValues(mapping, items[1..]) {
          var j, k :| 0 <= j < |items[1..]| && 0 <= k < |mapping| &&
            items[1..][j] == StringValue(mapping[k].name) && mapping[k].mapped == n;
          assert items[j + 1] == items[1..][j];
        } else {
          var k :| 0 <= k < |mapping| && mapping[k].name == items[0].s && mapping[k].mapped == n;
          assert items[0] == StringValue(mapping[k].name);
        }
      }
    }
  }

  // ---------------------------------------------------------------------
  // Integer range
  // ---------------------------------------------------------------------

  datatype IntRangeHandler = IntRangeHandler(
    policyName: string,
    prefName: string,
    min: int,
    max: int,
    clamp: bool)

  /** `v` moved to the nearest bound of [min, max]. */
  function Clamp(v: int, min: int, max: int): (r: int)
    requires min <= max
    ensures min <= r <= max
    ensures min <= v <= max ==> r == v
    ensures v < min ==> r == min
    ensures v > max ==> r == max
  {
    if v < min then min else if v > max then max else v
  }

  /** Clamping twice is clamping once. */
  lemma ClampIdempotent(v: int, min: int, max: int)
    requires min <= max
    ensures Clamp(Clamp(v, min, max), min, max) == Clamp(v, min, max)
  {
  }

  /** Clamping keeps the order of values. */
  lemma ClampMonotone(v: int, w: int, min: int, max: int)
    requires min <= max && v <= w
    ensures Clamp(v, min, max) <= Clamp(w, min, max)
  {
  }

  /** Shared by check and apply: a non-integer is refused with a type
      error; an integer outside [min, max] is refused with a range error,
      or, when clamping, accepted with a range warning and clamped. */
  function EnsureInRange(h: IntRangeHandler, v: Value): (r: (bool, seq<PolicyError>, int))
    requires h.min <= h.max
    ensures r.0 <==> v.IntValue? && (h.clamp || h.min <= v.i <= h.max)
    ensures r.1 == [] <==> v.IntValue? && h.min <= v.i <= h.max
    ensures |r.1| <= 1 && forall e :: e in r.1 ==> e.policy == h.policyName && e.index.None?
    ensures !v.IntValue? ==> r.1 == [PolicyError(h.policyName, None, TypeError)]
    ensures v.IntValue? && !(h.min <= v.i <= h.max) ==> r.1 == [PolicyError(h.policyName, None, OutOfRange)]
    ensures r.0 ==> h.min <= r.2 <= h.max && r.2 == Clamp(v.i, h.min, h.max)
  {
    match v
    case IntValue(i) =>
      if h.min <= i <= h.max then (true, [], i)
      else
        var error := [PolicyError(h.policyName, None, OutOfRange)];
        if h.clamp then (true, error, Clamp(i, h.min, h.max)) else (false, error, 0)
    case _ => (false, [PolicyError(h.policyName, None, TypeError)], 0)
  }

  function CheckIntRange(h: IntRangeHandler, v: Value): (r: CheckResult)
    requires h.min <= h.max
    ensures r.accepted <==> v.IntValue? && (h.clamp || h.min <= v.i <= h.max)
    ensures r.errors == [] <==> v.IntValue? && h.min <= v.i <= h.max
    ensures forall e :: e in r.errors ==> e.policy == h.policyName
  {
    var (ok, errors, _) := EnsureInRange(h, v);
    CheckResult(ok, errors)
  }

  /** The preference value written: the accepted integer, clamped into the
      range; nothing for a value the check refuses. */
  function ApplyIntRange(h: IntRangeHandler, v: Value): (r: Option<int>)
    requires h.min <= h.max
    ensures r.Some? <==> CheckIntRange(h, v).accepted
    ensures r.Some? ==> h.min <= r.value <= h.max && r.value == Clamp(v.i, h.min, h.max)
    ensures v.IntValue? && h.min <= v.i <= h.max ==> r == Some(v.i)
  {
    var (ok, _, value) := EnsureInRange(h, v);
    if ok then Some(value) else None
  }

  /** Applying is stable: writing the written value back through the
      handler writes the same value, with no warning. */
  lemma ApplyIsStable(h: IntRangeHandler, v: Value)
    requires h.min <= h.max
    requires ApplyIntRange(h, v).Some?
    ensures ApplyIntRange(h, IntValue(ApplyIntRange(h, v).value)) == ApplyIntRange(h, v)
    ensures CheckIntRange(h, IntValue(ApplyIntRange(h, v).value)).errors == []
  {
  }

  // ---------------------------------------------------------------------
  // Integer percentage to double
  // ---------------------------------------------------------------------

  datatype IntPercentageToDoubleHandler = IntPercentageToDoubleHandler(
    policyName: string,
    prefName: string,
    min: int,
    max: int,
    clamp: bool)

  /** Checks exactly as the integer-range handler with the same bounds and
      clamping does. */
  function CheckIntPercentageToDouble(h: IntPercentageToDoubleHandler, v: Value): (r: CheckResult)
    requires h.min <= h.max
    ensures r == CheckIntRange(IntRangeHandler(h.policyName, h.prefName, h.min, h.max, h.clamp), v)
    ensures r.accepted <==> v.IntValue? && (h.clamp || h.min <= v.i <= h.max)
  {
    CheckIntRange(IntRangeHandler(h.policyName, h.prefName, h.min, h.max, h.clamp), v)
  }
}
