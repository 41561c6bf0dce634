/** The six-key keyboard report of appendix B.1 of the HID 1.11 specification, built from
    the codes latched at each matrix position. */
module Reports {
  import opened Keycodes

  datatype Report = Report(modifiers: bv8, keys: seq<bv8>)

  const NO_KEYS: seq<bv8> := [0, 0, 0, 0, 0, 0]
  const ROLL_OVER: seq<bv8> := [1, 1, 1, 1, 1, 1]
  const EMPTY: Report := Report(0, NO_KEYS)

  predicate IsBasic(code: bv16) { Classify(code) == Basic }

  /** How many positions hold a basic-class code. */
  function BasicCount(active: seq<bv16>): (n: nat)
    ensures n <= |active|
  {
    if active == [] then 0
    else BasicCount(active[..|active| - 1]) + if IsBasic(active[|active| - 1]) then 1 else 0
  }

  function Modifiers(active: seq<bv16>): bv8 {
    if active == [] then 0
    else
      var code := active[|active| - 1];
      var before := Modifiers(active[..|active| - 1]);
      if Classify(code) == Modifier then before | ModifierMask(code) else before
  }

  /** The distinct usages of basic-class codes, in order of first occurrence. */
  function Usages(active: seq<bv16>): (r: seq<bv8>)
    ensures |r| <= BasicCount(active)
  {
    if active == [] then []
    else
      var code := active[|active| - 1];
      var before := Usages(active[..|active| - 1]);
      if IsBasic(code) && BasicUsage(code) !in before then before + [BasicUsage(code)] else before
  }

  function Padded(keys: seq<bv8>): (r: seq<bv8>)
    requires |keys| <= 6
    ensures |r| == 6
  {
    keys + NO_KEYS[|keys|..]
  }

  function ReportOf(active: seq<bv16>): Report {
    Report(Modifiers(active), if BasicCount(active) > 6 then ROLL_OVER else Padded(Usages(active)))
  }

  // ----- what the report says

  /** Position `i` is the first that holds usage `u`. */
  predicate FirstUse(active: seq<bv16>, i: nat, u: bv8) {
    && i < |active| && IsBasic(active[i]) && BasicUsage(active[i]) == u
    && forall j :: 0 <= j < i ==> !(IsBasic(active[j]) && BasicUsage(active[j]) == u)
  }

  lemma FirstUseExtends(active: seq<bv16>, n: nat, i: nat, u: bv8)
    requires n <= |active| && FirstUse(active[..n], i, u)
    ensures FirstUse(active, i, u)
  {
    hide Classify, BasicUsage;
    forall j | 0 <= j < i ensures !(IsBasic(active[j]) && BasicUsage(active[j]) == u) {
      assert active[..n][j] == active[j];
    }
  }

  lemma NewUse(active: seq<bv16>, n: nat)
    requires n < |active| && IsBasic(active[n])
    requires forall i :: 0 <= i < n && IsBasic(active[..n][i]) ==> BasicUsage(active[..n][i]) in Usages(active[..n])
    requires BasicUsage(active[n]) !in Usages(active[..n])
    ensures FirstUse(active, n, BasicUsage(active[n]))
  {
    hide Classify, BasicUsage, Usages;
    forall j | 0 <= j < n ensures !(IsBasic(active[j]) && BasicUsage(active[j]) == BasicUsage(active[n])) {
      assert active[..n][j] == active[j];
    }
  }

  /** The usages are exactly those held, each once, ordered by where each is first held. */
  lemma {:induction false} UsagesMeaning(active: seq<bv16>) returns (first: seq<nat>)
    ensures |first| == |Usages(active)|
    ensures forall k :: 0 <= k < |first| ==> FirstUse(active, first[k], Usages(active)[k])
    ensures forall k, l :: 0 <= k < l < |first| ==> first[k] < first[l]
    ensures forall i :: 0 <= i < |active| && IsBasic(active[i]) ==> BasicUsage(active[i]) in Usages(active)
  {
    hide Classify, BasicUsage;
    if active == [] {
      first := [];
    } else {
      var n := |active| - 1;
      var before := Usages(active[..n]);
      first := UsagesMeaning(active[..n]);
      forall k | 0 <= k < |first| ensures first[k] < n && FirstUse(active, first[k], before[k]) {
        FirstUseExtends(active, n, first[k], before[k]);
      }
      if IsBasic(active[n]) && BasicUsage(active[n]) !in before {
        first := first + [n];
        NewUse(active, n);
      }
      forall i | 0 <= i < |active| && IsBasic(active[i]) ensures BasicUsage(active[i]) in Usages(active) {
        if i < n {
          assert active[..n][i] == active[i];
        }
      }
    }
  }

  // ----- the report itself

  /** The positions that hold a basic-class code. */
  function BasicPositions(active: seq<bv16>): set<nat> {
    set i: nat | i < |active| && Classify(active[i]) == Basic
  }

  lemma {:induction false} CountIsPositions(active: seq<bv16>)
    ensures BasicCount(active) == |BasicPositions(active)|
  {
    hide Classify;
    if active == [] {
      assert BasicPositions(active) == {};
    } else {
      var n := |active| - 1;
      var before := active[..n];
      CountIsPositions(before);
      assert forall i :: 0 <= i < n ==> before[i] == active[i];
      assert BasicPositions(active) == BasicPositions(before) + if Classify(active[n]) == Basic then {n} else {};
    }
  }

  /** Position `i` holds a basic-class code whose low byte no earlier such position has. */
  predicate FirstOfItsKey(active: seq<bv16>, i: nat) {
    && i < |active| && Classify(active[i]) == Basic
    && forall j :: 0 <= j < i && Classify(active[j]) == Basic ==> active[j] & 0xFF != active[i] & 0xFF
  }

  lemma LowByte(c: bv16, d: bv16)
    ensures BasicUsage(c) == BasicUsage(d) <==> c & 0xFF == d & 0xFF
    ensures BasicUsage(c) as bv16 == c & 0xFF
  {
  }

  lemma FirstUseIsFirst(active: seq<bv16>, i: nat, u: bv8)
    requires FirstUse(active, i, u)
    ensures FirstOfItsKey(active, i) && u as bv16 == active[i] & 0xFF
  {
    hide Classify, BasicUsage;
    forall j | 0 <= j < i && Classify(active[j]) == Basic ensures active[j] & 0xFF != active[i] & 0xFF {
      LowByte(active[j], active[i]);
    }
    LowByte(active[i], active[i]);
  }

  /** The report on the wire. With at most six positions holding basic keys it lists their
      low bytes, each once, ordered by where each is first held, then zeros; with more, six
      times error roll-over. */
  lemma ReportKeys(active: seq<bv16>) returns (first: seq<nat>)
    ensures |ReportOf(active).keys| == 6
    ensures |BasicPositions(active)| > 6 ==> ReportOf(active).keys == [1, 1, 1, 1, 1, 1]
    ensures |BasicPositions(active)| <= 6 ==>
              && |first| <= 6
              && (forall k :: 0 <= k < |first| ==>
                    FirstOfItsKey(active, first[k]) && ReportOf(active).keys[k] as bv16 == active[first[k]] & 0xFF)
              && (forall k :: |first| <= k < 6 ==> ReportOf(active).keys[k] == 0)
              && (forall k, l :: 0 <= k < l < |first| ==> first[k] < first[l])
              && (forall i: nat :: FirstOfItsKey(active, i) ==> i in first)
  {
    hide Classify, BasicUsage, Modifiers, BasicPositions, BasicCount, Usages, FirstUse, FirstOfItsKey;
    CountIsPositions(active);
    first := UsagesMeaning(active);
    FirstsAreKeys(active, first);
    UsagesFit(active);
  }

  lemma UsagesFit(active: seq<bv16>)
    ensures |Usages(active)| <= BasicCount(active)
    ensures BasicCount(active) <= 6 ==> |ReportOf(active).keys| == 6
    ensures BasicCount(active) <= 6 ==> forall k :: 0 <= k < 6 ==>
              ReportOf(active).keys[k] == if k < |Usages(active)| then Usages(active)[k] else 0
  {
    hide Classify, BasicUsage, Modifiers, Usages, BasicCount;
  }

  lemma FirstsAreKeys(active: seq<bv16>, first: seq<nat>)
    requires |first| == |Usages(active)|
    requires forall k :: 0 <= k < |first| ==> FirstUse(active, first[k], Usages(active)[k])
    requires forall i :: 0 <= i < |active| && IsBasic(active[i]) ==> BasicUsage(active[i]) in Usages(active)
    ensures forall k :: 0 <= k < |first| ==>
              FirstOfItsKey(active, first[k]) && Usages(active)[k] as bv16 == active[first[k]] & 0xFF
    ensures forall i: nat :: FirstOfItsKey(active, i) ==> i in first
  {
    hide Classify, BasicUsage, Usages;
    forall k | 0 <= k < |first|
      ensures FirstOfItsKey(active, first[k]) && Usages(active)[k] as bv16 == active[first[k]] & 0xFF
    {
      FirstUseIsFirst(active, first[k], Usages(active)[k]);
    }
    forall i: nat | FirstOfItsKey(active, i) ensures i in first {
      var k :| 0 <= k < |first| && Usages(active)[k] == BasicUsage(active[i]);
      assert FirstUse(active, first[k], Usages(active)[k]);
      LowByte(active[first[k]], active[i]);
      OnlyFirst(active, first[k], i);
    }
  }

  /** Two first positions of the same key are one. */
  lemma OnlyFirst(active: seq<bv16>, i: nat, j: nat)
    requires FirstOfItsKey(active, i) && FirstOfItsKey(active, j) && active[i] & 0xFF == active[j] & 0xFF
    ensures i == j
  {
    hide Classify;
  }

  /** Each of the eight modifier bits is set exactly when its code is held, whatever else is. */
  lemma ReportModifiers(active: seq<bv16>)
    ensures var m := ReportOf(active).modifiers;
            && (m & 0x01 != 0 <==> 0x00E0 in active) && (m & 0x02 != 0 <==> 0x00E1 in active)
            && (m & 0x04 != 0 <==> 0x00E2 in active) && (m & 0x08 != 0 <==> 0x00E3 in active)
            && (m & 0x10 != 0 <==> 0x00E4 in active) && (m & 0x20 != 0 <==> 0x00E5 in active)
            && (m & 0x40 != 0 <==> 0x00E6 in active) && (m & 0x80 != 0 <==> 0x00E7 in active)
  {
    hide Modifiers, BasicCount, Usages;
    ModifierBit(active, 0x00E0, 0x01);
    ModifierBit(active, 0x00E1, 0x02);
    ModifierBit(active, 0x00E2, 0x04);
    ModifierBit(active, 0x00E3, 0x08);
    ModifierBit(active, 0x00E4, 0x10);
    ModifierBit(active, 0x00E5, 0x20);
    ModifierBit(active, 0x00E6, 0x40);
    ModifierBit(active, 0x00E7, 0x80);
  }

  lemma ModifierBit(active: seq<bv16>, code: bv16, bit: bv8)
    requires 0x00E0 <= code <= 0x00E7 && Classify(code) == Modifier && bit == ModifierMask(code)
    ensures Modifiers(active) & bit != 0 <==> code in active
  {
    hide Modifiers, ModifierMask;
    ModifierHeld(active, code);
    MasksDisjoint(code, code);
  }

  /** No usage is reported twice. */
  lemma UsagesDistinct(active: seq<bv16>)
    ensures forall k, l :: 0 <= k < l < |Usages(active)| ==> Usages(active)[k] != Usages(active)[l]
  {
    var first := UsagesMeaning(active);
    forall k, l | 0 <= k < l < |Usages(active)| ensures Usages(active)[k] != Usages(active)[l] {
      assert FirstUse(active, first[k], Usages(active)[k]);
      assert FirstUse(active, first[l], Usages(active)[l]);
    }
  }

  /** A modifier's bit is set exactly when its code is held somewhere. */
  lemma {:induction false} ModifierHeld(active: seq<bv16>, code: bv16)
    requires Classify(code) == Modifier
    ensures Modifiers(active) & ModifierMask(code) == if code in active then ModifierMask(code) else 0
  {
    if active == [] {
      ZeroBits(ModifierMask(code));
    } else {
      var n := |active| - 1;
      ModifierHeld(active[..n], code);
      assert active == active[..n] + [active[n]];
      hide ModifierMask;
      if Classify(active[n]) == Modifier {
        MasksDisjoint(active[n], code);
        OrBits(Modifiers(active[..n]), ModifierMask(active[n]), ModifierMask(code));
      }
    }
  }

  lemma ZeroBits(m: bv8)
    ensures 0 & m == 0
  {
  }

  lemma OrBits(a: bv8, b: bv8, m: bv8)
    ensures (a | b) & m == (a & m) | (b & m)
    ensures (m & m) | 0 == m && 0 | m == m && m | m == m && m & m == m && 0 | 0 == (0 as bv8) && m | 0 == m
  {
  }

  /** The two passes of the source over a latched matrix of at most 255 positions. */
  method BuildReport(active: array<bv16>) returns (r: Report)
    ensures r == ReportOf(active[..])
  {
    hide ModifierMask, BasicUsage;
    var modifiers: bv8 := 0;
    var basicCount := 0;
    for i := 0 to active.Length
      invariant basicCount == BasicCount(active[..i]) && modifiers == Modifiers(active[..i])
    {
      assert active[..i + 1][..i] == active[..i];
      var code := active[i];
      if code != 0x0000 {
        if Classify(code) == Basic {
          basicCount := basicCount + 1;
        } else if Classify(code) == Modifier {
          modifiers := modifiers | ModifierMask(code);
        }
      }
    }
    assert active[..active.Length] == active[..];
    if basicCount > 6 {
      return Report(modifiers, ROLL_OVER);
    }
    var keys: seq<bv8> := [];
    var i := 0;
    while i < active.Length && |keys| < 6
      invariant 0 <= i <= active.Length && keys == Usages(active[..i]) && |keys| <= 6
    {
      assert active[..i + 1][..i] == active[..i];
      var code := active[i];
      if code != 0x0000 && Classify(code) == Basic {
        var usage := BasicUsage(code);
        var dup := false;
        for k := 0 to |keys|
          invariant dup <==> usage in keys[..k]
        {
          if keys[k] == usage {
            dup := true;
            break;
          }
        }
        if !dup {
          keys := keys + [usage];
        }
      }
      i := i + 1;
    }
    CountGrows(active[..], i);
    r := Report(modifiers, Padded(keys));
  }

  /** Counts only grow along the matrix, and where they do not, no usage is new. */
  lemma {:induction false} CountGrows(active: seq<bv16>, i: nat)
    requires i <= |active|
    ensures BasicCount(active[..i]) <= BasicCount(active)
    ensures BasicCount(active[..i]) == BasicCount(active) ==> Usages(active[..i]) == Usages(active)
    decreases |active| - i
  {
    if i == |active| {
      assert active[..i] == active;
    } else {
      assert active[..i + 1][..i] == active[..i];
      CountGrows(active, i + 1);
    }
  }

  /** With every position released the report is empty. */
  lemma {:induction false} NothingHeld(active: seq<bv16>)
    requires forall i :: 0 <= i < |active| ==> active[i] == 0
    ensures ReportOf(active) == EMPTY
  {
    if active == [] {
    } else {
      NothingHeld(active[..|active| - 1]);
    }
  }
}
