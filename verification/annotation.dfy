/** What a mark-down writes besides the recording: the name of the clip file, chosen by
    probing `<pos>.mp3`, `<pos>_0.mp3`, `<pos>_1.mp3`, ... until one is unused, and the
    one-line label file `<pos/1000:F6>\t<pos/1000:F6>\tNote`. Positions are the player's
    integer millisecond position. */
module Annotation {
  import opened Basics
  import opened Text
  import Probe

  /** The `k`-th clip name probed for a mark at `position` ms. */
  function ClipCandidate(position: nat, k: nat): string {
    if k == 0 then NatToString(position) + ".mp3"
    else NatToString(position) + "_" + NatToString(k - 1) + ".mp3"
  }

  /** No clip probe is the label file: a probe ends in '3', "label.txt" in 't'. */
  lemma ClipCandidateNotLabel(position: nat, k: nat)
    ensures ClipCandidate(position, k) != LabelFileName
  {
    var c := ClipCandidate(position, k);
    assert c[|c| - 1] == '3';
    assert LabelFileName[|LabelFileName| - 1] == 't';
  }

  /** Different probes name different files. */
  lemma ClipCandidatesDistinct(position: nat, i: nat, j: nat)
    requires i < j
    ensures ClipCandidate(position, i) != ClipCandidate(position, j)
  {
    var p := NatToString(position);
    if i == 0 {
      PlainDiffersFromSuffixed(p, NatToString(j - 1), ".mp3");
    } else if ClipCandidate(position, i) == ClipCandidate(position, j) {
      InfixDetermined(p, NatToString(i - 1), NatToString(j - 1), ".mp3");
      NatToStringInjective(i - 1, j - 1);
    }
  }

  /** The probe order of a mark at `position`, as a function of the probe number. */
  function ClipNames(position: nat): (c: nat -> string)
    ensures forall k :: c(k) == ClipCandidate(position, k)
    ensures Probe.Distinct(c)
  {
    var c := (k: nat) => ClipCandidate(position, k);
    forall i: nat, j: nat | i < j
      ensures c(i) != c(j)
    {
      ClipCandidatesDistinct(position, i, j);
    }
    c
  }

  /** Probe `k` is the first clip name not in `taken`. */
  ghost predicate FirstFreeClip(position: nat, taken: set<string>, k: nat) {
    && ClipCandidate(position, k) !in taken
    && forall j :: 0 <= j < k ==> ClipCandidate(position, j) in taken
  }

  /** The probe loop of a mark-down: the clip name and the number of names it rejected.
      It always stops, since `taken` is finite and every probe names a new file. */
  method ChooseClipName(position: nat, taken: set<string>) returns (name: string, index: nat)
    ensures name == ClipCandidate(position, index) && name !in taken
    ensures FirstFreeClip(position, taken, index)
    ensures index <= |taken|
  {
    ghost var c := ClipNames(position);
    name := NatToString(position) + ".mp3";
    index := 0;
    while name in taken
      invariant name == ClipCandidate(position, index)
      invariant Probe.Tried(c, index) <= taken
      decreases |taken - Probe.Tried(c, index)|
    {
      Probe.ProbeShrinks(c, index, taken);
      name := NatToString(position) + "_" + NatToString(index) + ".mp3";
      index := index + 1;
    }
    Probe.TriedCount(c, index);
    Probe.SubsetNoLarger(Probe.Tried(c, index), taken);
  }

  /** The first free probe is unique: the clip name is determined by the position and the
      files already present. */
  lemma FirstFreeClipUnique(position: nat, taken: set<string>, k1: nat, k2: nat)
    requires FirstFreeClip(position, taken, k1) && FirstFreeClip(position, taken, k2)
    ensures k1 == k2
  {
  }

  /** Marking twice at one position, with the first clip now present, picks a later
      probe. */
  lemma RepeatedMarkAdvances(position: nat, taken: set<string>, k1: nat, k2: nat)
    requires FirstFreeClip(position, taken, k1)
    requires FirstFreeClip(position, taken + {ClipCandidate(position, k1)}, k2)
    ensures k1 < k2
  {
  }

  /** Into a directory without clips for `position`, two marks there create
      `<pos>.mp3` and then `<pos>_0.mp3`. */
  lemma TwoMarksAtOnePosition(position: nat, taken: set<string>, k1: nat, k2: nat)
    requires ClipCandidate(position, 0) !in taken && ClipCandidate(position, 1) !in taken
    requires FirstFreeClip(position, taken, k1)
    requires FirstFreeClip(position, taken + {ClipCandidate(position, k1)}, k2)
    ensures ClipCandidate(position, k1) == NatToString(position) + ".mp3"
    ensures ClipCandidate(position, k2) == NatToString(position) + "_0.mp3"
  {
    assert k1 == 0;
    ClipCandidatesDistinct(position, 0, 1);
    assert k2 == 1;
    assert NatToString(0) == "0";
  }

  /** The first clip probes at position 0, written out. */
  lemma ZeroClips(k: nat)
    requires FirstFreeClip(0, {"0.mp3", LabelFileName}, k)
    ensures ClipCandidate(0, k) == "0_0.mp3"
  {
    assert NatToString(0) == "0";
    assert ClipCandidate(0, 0) == "0.mp3";
    assert ClipCandidate(0, 1) == "0_0.mp3";
  }

  // ---------------------------------------------------------------------------------
  // The label file

  const LabelFileName := "label.txt"

  /** The six fractional digits of `ms / 1000.0`: the three millisecond digits then "000". */
  function Fraction6(r: nat): (f: string)
    requires r < 1000
    ensures |f| == 6 && AllDigits(f)
  {
    [DigitChar(r / 100), DigitChar(r / 10 % 10), DigitChar(r % 10)] + "000"
  }

  /** `(ms / 1000.0).ToString("F6")` for an integral number of milliseconds. The double
      `ms / 1000.0` is not exact (0.001 has no binary form), but for every `ms` in 32-bit
      range it lies close enough to the three-decimal value that rounding to six decimals
      gives that value back: the seconds, '.', the millisecond digits, "000". */
  function SecondsF6(ms: nat): (s: string) {
    NatToString(ms / 1000) + "." + Fraction6(ms % 1000)
  }

  /** Reads a fixed-point number with exactly six decimals; its value in millionths. */
  function ParseF6(s: string): (v: Option<nat>) {
    if |s| >= 8 && s[|s| - 7] == '.' && AllDigits(s[..|s| - 7]) && AllDigits(s[|s| - 6..])
    then Some(ParseNat(s[..|s| - 7]) * 1000000 + ParseNat(s[|s| - 6..]))
    else None
  }

  lemma ParseFraction6(r: nat)
    requires r < 1000
    ensures ParseNat(Fraction6(r)) == r * 1000
  {
    var a, b, c := r / 100, r / 10 % 10, r % 10;
    ParseNatAppendDigit([], a);
    assert [] + [DigitChar(a)] == [DigitChar(a)];
    ParseNatAppendDigit([DigitChar(a)], b);
    ParseNatAppendDigit([DigitChar(a), DigitChar(b)], c);
    var t := [DigitChar(a), DigitChar(b), DigitChar(c)];
    assert [DigitChar(a)] + [DigitChar(b)] == [DigitChar(a), DigitChar(b)];
    assert [DigitChar(a), DigitChar(b)] + [DigitChar(c)] == t;
    assert ParseNat(t) == r;
    ParseNatAppendDigit(t, 0);
    ParseNatAppendDigit(t + "0", 0);
    ParseNatAppendDigit(t + "00", 0);
    assert DigitChar(0) == '0';
    assert t + "0" + "0" == t + "00";
    assert t + "00" + "0" == t + "000";
  }

  /** The printed seconds denote exactly `ms / 1000`: read back, they give `ms` thousandths. */
  lemma SecondsF6RoundTrip(ms: nat)
    ensures ParseF6(SecondsF6(ms)) == Some(ms * 1000)
  {
    var i := NatToString(ms / 1000);
    var f := Fraction6(ms % 1000);
    var s := SecondsF6(ms);
    assert s[..|s| - 7] == i;
    assert s[|s| - 6..] == f;
    assert s[|s| - 7] == '.';
    ParseNatToString(ms / 1000);
    ParseFraction6(ms % 1000);
  }

  /** The line written to the label file: start and end are both the mark position. */
  function LabelLine(ms: nat): (line: string) {
    SecondsF6(ms) + "\t" + SecondsF6(ms) + "\tNote"
  }

  lemma SecondsF6Ascii(ms: nat)
    ensures IsAscii(SecondsF6(ms)) && '\n' !in SecondsF6(ms)
  {
    var s := SecondsF6(ms);
    forall i | 0 <= i < |s| ensures '.' <= s[i] <= '9' {
      if i < |NatToString(ms / 1000)| {
        assert IsDigit(NatToString(ms / 1000)[i]);
      } else if i > |NatToString(ms / 1000)| {
        assert IsDigit(Fraction6(ms % 1000)[i - |NatToString(ms / 1000)| - 1]);
      }
    }
  }

  /** The label line is ASCII text without a line break: the file holds exactly one line. */
  lemma LabelLineIsOneLine(ms: nat)
    ensures IsAscii(LabelLine(ms) + "\n")
    ensures '\n' !in LabelLine(ms)
  {
    SecondsF6Ascii(ms);
  }

  /** The bytes of `label.txt` after a mark at `ms`: the label line and a line break,
      UTF-8 encoded. */
  function LabelFileContents(ms: nat): (b: seq<byte>)
    ensures |b| == |LabelLine(ms)| + 1
  {
    LabelLineIsOneLine(ms);
    AsciiBytes(LabelLine(ms) + "\n")
  }

  /** A mark at 12.345 s writes "12.345000\t12.345000\tNote". */
  lemma LabelLineExample()
    ensures LabelLine(12345) == "12.345000\t12.345000\tNote"
  {
    assert DigitChar(1) == '1' && DigitChar(2) == '2';
    assert DigitChar(3) == '3' && DigitChar(4) == '4' && DigitChar(5) == '5';
    assert NatToString(1) == "1";
    assert NatToString(12) == NatToString(1) + [DigitChar(2)] == "12";
    assert Fraction6(345) == "345000";
    assert SecondsF6(12345) == "12.345000";
  }

  /** Read back as text, `label.txt` is the label line and one line break. */
  lemma LabelFileReadsBack(ms: nat)
    ensures forall i :: 0 <= i < |LabelFileContents(ms)| ==> LabelFileContents(ms)[i] < 128
    ensures AsciiText(LabelFileContents(ms)) == LabelLine(ms) + "\n"
  {
    LabelLineIsOneLine(ms);
    AsciiRoundTrip(LabelLine(ms) + "\n");
  }
}
