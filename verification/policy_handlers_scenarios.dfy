/** The policy-handler unit-test scenarios: the mapping {"one" -> 1,
    "two" -> 2}, and the range [0, 10] with and without clamping. */
module PolicyHandlersScenarios {
  import opened Wrappers
  import opened PolicyHandlers

  const TestPolicy: string := "unit_test.test_policy"
  const TestPref: string := "unit_test.test_pref"

  const IntegerTypeMap: seq<MappingEntry> := [MappingEntry("one", 1), MappingEntry("two", 2)]

  const MappingHandler: StringMappingListHandler :=
    StringMappingListHandler(TestPolicy, TestPref, IntegerTypeMap)

  function RangeHandler(clamp: bool): IntRangeHandler {
    IntRangeHandler(TestPolicy, TestPref, 0, 10, clamp)
  }

  function PercentageHandler(clamp: bool): IntPercentageToDoubleHandler {
    IntPercentageToDoubleHandler(TestPolicy, TestPref, 0, 10, clamp)
  }

  /** Empty and all-known lists pass cleanly; an unknown string still
      passes but leaves an error for the policy; a non-list fails. */
  lemma StringMappingListCheck()
    ensures CheckStringMappingList(MappingHandler, ListValue([])) == CheckResult(true, [])
    ensures CheckStringMappingList(MappingHandler, ListValue([StringValue("one")])) == CheckResult(true, [])
    ensures
      var r := CheckStringMappingList(MappingHandler, ListValue([StringValue("one"), StringValue("invalid")]));
      r.accepted && r.errors != [] && r.errors[0].policy == TestPolicy
    ensures
      var r := CheckStringMappingList(MappingHandler, StringValue("no list"));
      !r.accepted && r.errors != [] && r.errors[0].policy == TestPolicy
  {
    assert Map(IntegerTypeMap, "one") == Some(1);
    assert Map(IntegerTypeMap, "invalid") == None by {
      assert IntegerTypeMap[0].name != "invalid" && IntegerTypeMap[1].name != "invalid";
    }
  }

  /** Known strings are written as their values, in order; unknown ones
      are dropped. */
  lemma StringMappingListApply()
    ensures ApplyStringMappingList(MappingHandler, ListValue([])) == Some([])
    ensures ApplyStringMappingList(MappingHandler, ListValue([StringValue("two")])) == Some([2])
    ensures ApplyStringMappingList(MappingHandler, ListValue([StringValue("two"), StringValue("invalid")])) == Some([2])
  {
    assert Map(IntegerTypeMap, "two") == Some(2) by {
      assert IntegerTypeMap[0].name != "two";
    }
    assert Map(IntegerTypeMap, "invalid") == None by {
      assert IntegerTypeMap[0].name != "invalid" && IntegerTypeMap[1].name != "invalid";
    }
    var two, invalid := StringValue("two"), StringValue("invalid");
    assert [two, invalid][1..] == [invalid];
    assert KnownValues(IntegerTypeMap, [invalid]) == [];
    assert [two][1..] == [];
    assert KnownValues(IntegerTypeMap, [two]) == [2];
  }

  /** With clamping, in-range values pass cleanly, out-of-range values pass
      with a warning, and a string fails with an error. */
  lemma IntRangeCheckClamp()
    ensures CheckIntRange(RangeHandler(true), IntValue(0)) == CheckResult(true, [])
    ensures CheckIntRange(RangeHandler(true), IntValue(5)) == CheckResult(true, [])
    ensures CheckIntRange(RangeHandler(true), IntValue(10)) == CheckResult(true, [])
    ensures CheckIntRange(RangeHandler(true), IntValue(-5)).accepted
    ensures CheckIntRange(RangeHandler(true), IntValue(-5)).errors != []
    ensures CheckIntRange(RangeHandler(true), IntValue(15)).accepted
    ensures CheckIntRange(RangeHandler(true), IntValue(15)).errors != []
    ensures !CheckIntRange(RangeHandler(true), StringValue("invalid")).accepted
    ensures CheckIntRange(RangeHandler(true), StringValue("invalid")).errors != []
  {
  }

  /** Without clamping, out-of-range values fail with an error. */
  lemma IntRangeCheckDontClamp()
    ensures CheckIntRange(RangeHandler(false), IntValue(0)) == CheckResult(true, [])
    ensures CheckIntRange(RangeHandler(false), IntValue(5)) == CheckResult(true, [])
    ensures CheckIntRange(RangeHandler(false), IntValue(10)) == CheckResult(true, [])
    ensures !CheckIntRange(RangeHandler(false), IntValue(-5)).accepted
    ensures CheckIntRange(RangeHandler(false), IntValue(-5)).errors != []
    ensures !CheckIntRange(RangeHandler(false), IntValue(15)).accepted
    ensures CheckIntRange(RangeHandler(false), IntValue(15)).errors != []
    ensures !CheckIntRange(RangeHandler(false), StringValue("invalid")).accepted
    ensures CheckIntRange(RangeHandler(false), StringValue("invalid")).errors != []
  {
  }

  /** With clamping, in-range values are written unchanged, -5 as 0 and 15
      as 10. */
  lemma IntRangeApplyClamp()
    ensures ApplyIntRange(RangeHandler(true), IntValue(0)) == Some(0)
    ensures ApplyIntRange(RangeHandler(true), IntValue(5)) == Some(5)
    ensures ApplyIntRange(RangeHandler(true), IntValue(10)) == Some(10)
    ensures ApplyIntRange(RangeHandler(true), IntValue(-5)) == Some(0)
    ensures ApplyIntRange(RangeHandler(true), IntValue(15)) == Some(10)
  {
  }

  /** The percentage handler accepts and reports exactly as the range
      handler does, in both modes. */
  lemma IntPercentageToDoubleCheck(clamp: bool)
    ensures CheckIntPercentageToDouble(PercentageHandler(clamp), IntValue(0)) == CheckResult(true, [])
    ensures CheckIntPercentageToDouble(PercentageHandler(clamp), IntValue(5)) == CheckResult(true, [])
    ensures CheckIntPercentageToDouble(PercentageHandler(clamp), IntValue(10)) == CheckResult(true, [])
    ensures CheckIntPercentageToDouble(PercentageHandler(clamp), IntValue(-5)).accepted == clamp
    ensures CheckIntPercentageToDouble(PercentageHandler(clamp), IntValue(-5)).errors != []
    ensures CheckIntPercentageToDouble(PercentageHandler(clamp), IntValue(15)).accepted == clamp
    ensures CheckIntPercentageToDouble(PercentageHandler(clamp), IntValue(15)).errors != []
    ensures !CheckIntPercentageToDouble(PercentageHandler(clamp), StringValue("invalid")).accepted
    ensures CheckIntPercentageToDouble(PercentageHandler(clamp), StringValue("invalid")).errors != []
  {
  }
}
