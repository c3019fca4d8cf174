/** `PropertiesPanel::formatFlags`: the texture flag word rendered for the
    properties panel as the labels of ten of its bits, in a fixed order,
    joined by ", ", or "None" when none of the ten is set. */
module PropertiesPanel {
  import opened VtfFormat

  /** The flags the panel reports, in the order it tests them. */
  const Masks: seq<bv32> := [
    0x0001, 0x0002, 0x0004, 0x0008, 0x0010, 0x0040, 0x0080, 0x0100, 0x0200, 0x4000]

  /** The label shown for each of `Masks`. */
  const Labels: seq<string> := [
    "PointSample", "Trilinear", "ClampS", "ClampT", "Anisotropic", "sRGB",
    "Normal Map", "NoMip", "NoLOD", "EnvMap"]

  /** Every bit the panel looks at: the union of `Masks`. */
  const InspectedMask: bv32 := 0x43DF

  /** The ten tests `flags & mask`, in the order the panel makes them. */
  function Tests(flags: bv32): (t: seq<bool>)
    ensures |t| == |Masks| == |Labels|
  {
    seq(|Masks|, j requires 0 <= j < |Masks| => flags & Masks[j] != 0)
  }

  /** The labels of the passed tests from `j` on: one `flagList << label`
      per test that succeeds, in test order. */
  function LabelsFrom(t: seq<bool>, j: nat): (r: seq<string>)
    requires |t| == |Labels| && j <= |t|
    decreases |t| - j
  {
    if j == |t| then []
    else if t[j] then [Labels[j]] + LabelsFrom(t, j + 1)
    else LabelsFrom(t, j + 1)
  }

  /** `QStringList::join(", ")`. */
  function Join(ls: seq<string>): (r: string) {
    if |ls| == 0 then ""
    else if |ls| == 1 then ls[0]
    else ls[0] + ", " + Join(ls[1..])
  }

  /** The text for a given outcome of the ten tests: the joined labels,
      or "None" when the list stayed empty. */
  function TextOf(t: seq<bool>): (r: string)
    requires |t| == |Labels|
  {
    var ls := LabelsFrom(t, 0);
    if |ls| == 0 then "None" else Join(ls)
  }

  /** `formatFlags(flags)`. */
  function FormatFlags(flags: bv32): (r: string) {
    TextOf(Tests(flags))
  }

  // ---------------------------------------------------------------------
  // The table

  /** The masks are the flags POINTSAMPLE, TRILINEAR, CLAMPS, CLAMPT,
      ANISOTROPIC, SRGB, NORMAL, NOMIP, NOLOD and ENVMAP, in that order,
      and `InspectedMask` is their union. */
  lemma TableValues()
    ensures Masks[0] as int == POINTSAMPLE && Masks[1] as int == TRILINEAR
    ensures Masks[2] as int == CLAMPS && Masks[3] as int == CLAMPT
    ensures Masks[4] as int == ANISOTROPIC && Masks[5] as int == SRGB
    ensures Masks[6] as int == NORMAL && Masks[7] as int == NOMIP
    ensures Masks[8] as int == NOLOD && Masks[9] as int == ENVMAP
    ensures InspectedMask == Masks[0] | Masks[1] | Masks[2] | Masks[3] | Masks[4] |
      Masks[5] | Masks[6] | Masks[7] | Masks[8] | Masks[9]
  {
  }

  /** A key telling the labels apart: length, first and last character. */
  function LabelKey(l: string): (nat, char, char)
    requires |l| > 0
  {
    (|l|, l[0], l[|l| - 1])
  }

  /** The labels are pairwise distinct, none contains a comma, and none
      is "None". */
  lemma LabelsDistinct()
    ensures forall j :: 0 <= j < |Labels| ==> ',' !in Labels[j] && Labels[j] != "None"
    ensures forall j, k :: 0 <= j < k < |Labels| ==> Labels[j] != Labels[k]
  {
    var keys := seq(|Labels|, j requires 0 <= j < |Labels| => LabelKey(Labels[j]));
    assert keys == [(11, 'P', 'e'), (9, 'T', 'r'), (6, 'C', 'S'), (6, 'C', 'T'), (11, 'A', 'c'),
                    (4, 's', 'B'), (10, 'N', 'p'), (5, 'N', 'p'), (5, 'N', 'D'), (6, 'E', 'p')];
    forall j, k | 0 <= j < k < |Labels|
      ensures Labels[j] != Labels[k]
    {
      assert keys[j] != keys[k];
    }
  }

  // ---------------------------------------------------------------------
  // Which labels, in which order

  /** The positions from `j` on whose test passed, in test order. */
  function SelectedFrom(t: seq<bool>, j: nat): (r: seq<nat>)
    requires |t| == |Labels| && j <= |t|
    ensures forall k :: 0 <= k < |r| ==> j <= r[k] < |t|
    decreases |t| - j
  {
    if j == |t| then []
    else if t[j] then [j] + SelectedFrom(t, j + 1)
    else SelectedFrom(t, j + 1)
  }

  /** The labels are the labels of the selected positions. */
  lemma {:induction false} LabelsOfSelected(t: seq<bool>, j: nat)
    requires |t| == |Labels| && j <= |t|
    ensures var sel, ls := SelectedFrom(t, j), LabelsFrom(t, j);
      |ls| == |sel| && forall k :: 0 <= k < |sel| ==> ls[k] == Labels[sel[k]]
    decreases |t| - j
  {
    if j < |t| {
      LabelsOfSelected(t, j + 1);
    }
  }

  /** The selected positions rise strictly: labels keep the test order. */
  lemma {:induction false} SelectedRises(t: seq<bool>, j: nat)
    requires |t| == |Labels| && j <= |t|
    ensures forall k, k' :: 0 <= k < k' < |SelectedFrom(t, j)| ==> SelectedFrom(t, j)[k] < SelectedFrom(t, j)[k']
    decreases |t| - j
  {
    if j < |t| {
      SelectedRises(t, j + 1);
      var rest := SelectedFrom(t, j + 1);
      if t[j] {
        var sel := [j] + rest;
        assert SelectedFrom(t, j) == sel;
        forall k, k' | 0 <= k < k' < |sel|
          ensures sel[k] < sel[k']
        {
          assert sel[k'] == rest[k' - 1] && j < rest[k' - 1];
          if k > 0 {
            assert sel[k] == rest[k - 1];
          }
        }
      }
    }
  }

  /** A position is selected exactly when its test passed. */
  lemma {:induction false} SelectedIffPassed(t: seq<bool>, j: nat)
    requires |t| == |Labels| && j <= |t|
    ensures forall i :: j <= i < |t| ==> (i in SelectedFrom(t, j) <==> t[i])
    decreases |t| - j
  {
    if j < |t| {
      SelectedIffPassed(t, j + 1);
    }
  }

  /** For any outcome of the tests, the list is the labels of exactly the
      passed tests, in test order. */
  lemma ListInOrder(t: seq<bool>)
    requires |t| == |Labels|
    ensures var sel, ls := SelectedFrom(t, 0), LabelsFrom(t, 0);
      && |ls| == |sel|
      && (forall k :: 0 <= k < |sel| ==> ls[k] == Labels[sel[k]])
      && (forall k, k' :: 0 <= k < k' < |sel| ==> sel[k] < sel[k'])
      && (forall i :: 0 <= i < |t| ==> (i in sel <==> t[i]))
  {
    LabelsOfSelected(t, 0);
    SelectedRises(t, 0);
    SelectedIffPassed(t, 0);
  }

  /** A label is in the list exactly when its test passed. */
  lemma LabelListedIffPassed(t: seq<bool>, j: nat)
    requires |t| == |Labels| && j < |t|
    ensures Labels[j] in LabelsFrom(t, 0) <==> t[j]
  {
    ListInOrder(t);
    LabelsDistinct();
    var sel, ls := SelectedFrom(t, 0), LabelsFrom(t, 0);
    if Labels[j] in ls {
      var k :| 0 <= k < |ls| && ls[k] == Labels[j];
      assert Labels[sel[k]] == Labels[j];
    }
    if t[j] {
      var k :| 0 <= k < |sel| && sel[k] == j;
      assert ls[k] == Labels[j];
    }
  }

  /** Entry `j` of the test outcome is `flags & Masks[j] != 0`. */
  lemma TestIsMask(flags: bv32, j: nat)
    requires j < |Masks|
    ensures Tests(flags)[j] <==> flags & Masks[j] != 0
  {
  }

  /** A label appears in the panel text's list exactly when its flag is
      set. */
  lemma LabelShownIffSet(flags: bv32, j: nat)
    requires j < |Masks|
    ensures Labels[j] in LabelsFrom(Tests(flags), 0) <==> flags & Masks[j] != 0
  {
    LabelListedIffPassed(Tests(flags), j);
    TestIsMask(flags, j);
  }

  // ---------------------------------------------------------------------
  // "None", and the bits that do not matter

  /** No label from `j` on exactly when no test from `j` on passed. */
  lemma {:induction false} NoLabelsFrom(t: seq<bool>, j: nat)
    requires |t| == |Labels| && j <= |t|
    ensures LabelsFrom(t, j) == [] <==> forall i :: j <= i < |t| ==> !t[i]
    decreases |t| - j
  {
    if j < |t| {
      NoLabelsFrom(t, j + 1);
    }
  }

  /** Joining a non-empty list of comma-free strings gives a string with
      a comma exactly when the list has two or more entries. */
  lemma JoinHasComma(ls: seq<string>)
    requires |ls| >= 1
    requires forall i :: 0 <= i < |ls| ==> ',' !in ls[i]
    ensures ',' in Join(ls) <==> |ls| >= 2
  {
    if |ls| >= 2 {
      assert Join(ls)[|ls[0]|] == ',';
    }
  }

  /** The text is "None" exactly when no test passed: no label, and no
      join of labels, reads "None". */
  lemma NoneIffNonePassed(t: seq<bool>)
    requires |t| == |Labels|
    ensures TextOf(t) == "None" <==> forall i :: 0 <= i < |t| ==> !t[i]
  {
    NoLabelsFrom(t, 0);
    var ls := LabelsFrom(t, 0);
    if |ls| > 0 {
      ListInOrder(t);
      LabelsDistinct();
      JoinHasComma(ls);
      if |ls| == 1 {
        assert Join(ls) == Labels[SelectedFrom(t, 0)[0]];
      } else {
        assert ',' !in "None";
      }
    }
  }

  /** No test passes exactly when `flags` misses every inspected bit. */
  lemma NoTestPasses(flags: bv32)
    ensures (forall i :: 0 <= i < |Masks| ==> !Tests(flags)[i]) <==> flags & InspectedMask == 0
  {
    var t := Tests(flags);
    if flags & InspectedMask == 0 {
      assert t == [false, false, false, false, false, false, false, false, false, false];
    } else {
      assert t[0] || t[1] || t[2] || t[3] || t[4] || t[5] || t[6] || t[7] || t[8] || t[9];
    }
  }

  /** The panel shows "None" exactly when none of the inspected bits is
      set. */
  lemma NoneIffNoInspectedBit(flags: bv32)
    ensures FormatFlags(flags) == "None" <==> flags & InspectedMask == 0
  {
    NoneIffNonePassed(Tests(flags));
    NoTestPasses(flags);
  }

  /** The inspected bits a test outcome stands for: the mask of every
      passed test. */
  function BitsOf(t: seq<bool>): bv32
    requires |t| == |Masks|
  {
    LowBits(t) | HighBits(t)
  }

  function Pick(t: seq<bool>, j: nat): (r: bv32)
    requires |t| == |Masks| && j < |t|
  {
    if t[j] then Masks[j] else 0
  }

  function LowBits(t: seq<bool>): (r: bv32)
    requires |t| == |Masks|
  {
    Pick(t, 0) | Pick(t, 1) | Pick(t, 2) | Pick(t, 3) | Pick(t, 4)
  }

  function HighBits(t: seq<bool>): (r: bv32)
    requires |t| == |Masks|
  {
    Pick(t, 5) | Pick(t, 6) | Pick(t, 7) | Pick(t, 8) | Pick(t, 9)
  }

  lemma LowBitsOfTests(f: bv32)
    ensures LowBits(Tests(f)) == f & 0x1F
  {
  }

  lemma HighBitsOfTests(f: bv32)
    ensures HighBits(Tests(f)) == f & 0x43C0
  {
  }

  /** The passed tests stand for exactly the inspected bits of the word. */
  lemma TestsGiveInspectedBits(f: bv32)
    ensures BitsOf(Tests(f)) == f & InspectedMask
  {
    LowBitsOfTests(f);
    HighBitsOfTests(f);
    assert f & 0x43DF == (f & 0x1F) | (f & 0x43C0);
  }

  /** Only the inspected bits decide the tests. */
  lemma InspectedBitsDecideTests(f: bv32)
    ensures Tests(f & InspectedMask) == Tests(f)
  {
  }

  /** Two flag words pass the same tests exactly when they agree on the
      inspected bits. */
  lemma SameTestsIffSameInspectedBits(f: bv32, g: bv32)
    ensures Tests(f) == Tests(g) <==> f & InspectedMask == g & InspectedMask
  {
    TestsGiveInspectedBits(f);
    TestsGiveInspectedBits(g);
    InspectedBitsDecideTests(f);
    InspectedBitsDecideTests(g);
  }

  /** HINT_DXT5, ONEBITALPHA and EIGHTBITALPHA alone show as "None". */
  lemma UninspectedFlagsShowNone()
    ensures HINT_DXT5 == 0x20 && ONEBITALPHA == 0x1000 && EIGHTBITALPHA == 0x2000
    ensures FormatFlags(0x20 | 0x1000 | 0x2000) == "None"
  {
    NoneIffNoInspectedBit(0x20 | 0x1000 | 0x2000);
  }

  // ---------------------------------------------------------------------
  // Separators

  /** The number of times `c` occurs in `s`. */
  function Occurrences(s: string, c: char): (r: nat) {
    if |s| == 0 then 0 else (if s[0] == c then 1 else 0) + Occurrences(s[1..], c)
  }

  lemma {:induction false} OccurrencesAppend(a: string, b: string, c: char)
    ensures Occurrences(a + b, c) == Occurrences(a, c) + Occurrences(b, c)
    decreases |a|
  {
    if |a| > 0 {
      assert (a + b)[1..] == a[1..] + b;
      OccurrencesAppend(a[1..], b, c);
    } else {
      assert a + b == b;
    }
  }

  lemma {:induction false} NoOccurrences(s: string, c: char)
    requires c !in s
    ensures Occurrences(s, c) == 0
    decreases |s|
  {
    if |s| > 0 {
      NoOccurrences(s[1..], c);
    }
  }

  /** Joining `k` comma-free items puts exactly `k - 1` commas in. */
  lemma {:induction false} JoinCommas(ls: seq<string>)
    requires |ls| >= 1
    requires forall i :: 0 <= i < |ls| ==> ',' !in ls[i]
    ensures Occurrences(Join(ls), ',') == |ls| - 1
    decreases |ls|
  {
    NoOccurrences(ls[0], ',');
    if |ls| >= 2 {
      JoinCommas(ls[1..]);
      OccurrencesAppend(ls[0], ", ", ',');
      OccurrencesAppend(ls[0] + ", ", Join(ls[1..]), ',');
    }
  }

  /** With `k >= 1` tests passed, the text holds `k` labels and `k - 1`
      separators. */
  lemma SeparatorCount(t: seq<bool>)
    requires |t| == |Labels| && |LabelsFrom(t, 0)| >= 1
    ensures |LabelsFrom(t, 0)| == |SelectedFrom(t, 0)|
    ensures Occurrences(TextOf(t), ',') == |LabelsFrom(t, 0)| - 1
  {
    ListInOrder(t);
    LabelsDistinct();
    JoinCommas(LabelsFrom(t, 0));
  }

  // ---------------------------------------------------------------------
  // Reading the text back

  /** The position of the first comma of `s`, or `|s|` when there is none. */
  function CommaAt(s: string): (i: nat)
    ensures i <= |s|
    ensures forall k :: 0 <= k < i ==> s[k] != ','
    ensures i < |s| ==> s[i] == ','
  {
    if |s| == 0 || s[0] == ',' then 0 else 1 + CommaAt(s[1..])
  }

  /** `s.split(", ")`. */
  function Split(s: string): (r: seq<string>)
    ensures |r| >= 1
    decreases |s|
  {
    var i := CommaAt(s);
    if i == |s| then [s]
    else [s[..i]] + Split(s[if i + 2 <= |s| then i + 2 else |s|..])
  }

  /** The first comma of a comma-free item followed by `", "` is right
      after the item. */
  lemma {:induction false} CommaAfterItem(a: string, b: string)
    requires ',' !in a
    ensures CommaAt(a + ", " + b) == |a|
    decreases |a|
  {
    if |a| > 0 {
      assert (a + ", " + b)[1..] == a[1..] + ", " + b;
      CommaAfterItem(a[1..], b);
    }
  }

  /** `Split` undoes `Join` on a non-empty list of comma-free items. */
  lemma {:induction false} SplitJoin(ls: seq<string>)
    requires |ls| >= 1
    requires forall i :: 0 <= i < |ls| ==> ',' !in ls[i]
    ensures Split(Join(ls)) == ls
    decreases |ls|
  {
    if |ls| == 1 {
      assert CommaAt(ls[0]) == |ls[0]|;
    } else {
      var s := Join(ls);
      assert s == ls[0] + ", " + Join(ls[1..]);
      CommaAfterItem(ls[0], Join(ls[1..]));
      assert s[..|ls[0]|] == ls[0];
      assert s[|ls[0]| + 2..] == Join(ls[1..]);
      SplitJoin(ls[1..]);
    }
  }

  /** Reading a panel text back into the outcome of the ten tests: test
      `j` passed when the text lists label `j`. */
  function ReadBack(s: string): (t: seq<bool>)
    ensures |t| == |Labels|
  {
    seq(|Labels|, j requires 0 <= j < |Labels| => s != "None" && Labels[j] in Split(s))
  }

  /** The text determines the outcome of the tests it was made from. */
  lemma ReadBackText(t: seq<bool>)
    requires |t| == |Labels|
    ensures ReadBack(TextOf(t)) == t
  {
    var ls := LabelsFrom(t, 0);
    NoneIffNonePassed(t);
    if |ls| > 0 {
      LabelsDistinct();
      ListInOrder(t);
      SplitJoin(ls);
    }
    forall j | 0 <= j < |t|
      ensures ReadBack(TextOf(t))[j] == t[j]
    {
      LabelListedIffPassed(t, j);
    }
  }

  /** Two flag words give the same text exactly when they agree on the
      inspected bits: the text is a faithful picture of those ten bits and
      of nothing else. */
  lemma SameTextIffSameInspectedBits(f: bv32, g: bv32)
    ensures FormatFlags(f) == FormatFlags(g) <==> f & InspectedMask == g & InspectedMask
  {
    SameTestsIffSameInspectedBits(f, g);
    if FormatFlags(f) == FormatFlags(g) {
      ReadBackText(Tests(f));
      ReadBackText(Tests(g));
    }
  }
}
