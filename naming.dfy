/**
 * Names of the per-sample image files: `shot_<NNN>_<tag>.jpg`, where NNN is
 * the 1-based scene number in decimal, zero-padded to at least three digits
 * (the `{n:03d}` format of get_frames.py:27 and app.py:77).
 *
 * `ParseFileName` reads a name back; `FileNameRoundTrip` shows it inverts
 * `FileName`, from which distinct (scene, tag) pairs get distinct names.
 */
module Naming {
  import opened Wrappers

  const Prefix := "shot_"
  const Extension := ".jpg"

  predicate IsDigit(c: char) {
    '0' <= c <= '9'
  }

  predicate AllDigits(s: string) {
    forall k :: 0 <= k < |s| ==> IsDigit(s[k])
  }

  function DigitValue(c: char): (d: nat)
    requires IsDigit(c)
    ensures d < 10
  {
    c as int - '0' as int
  }

  function DigitChar(d: nat): (c: char)
    requires d < 10
    ensures IsDigit(c) && DigitValue(c) == d
  {
    ('0' as int + d) as char
  }

  /** The value of a string of decimal digits, most significant first; "" is 0. */
  function Value(s: string): nat
    requires AllDigits(s)
  {
    if s == [] then 0 else Value(s[..|s| - 1]) * 10 + DigitValue(s[|s| - 1])
  }

  /** The shortest decimal numeral of `n` (Python's `str(n)`). */
  function Decimal(n: nat): string
    decreases n
  {
    if n < 10 then [DigitChar(n)] else Decimal(n / 10) + [DigitChar(n % 10)]
  }

  /** `Decimal(n)` is a non-empty numeral of value `n` with no leading zero unless `n` is 0, at most three digits below 1000. */
  lemma {:induction false} DecimalNumeral(n: nat)
    ensures var s := Decimal(n);
            && 1 <= |s| && AllDigits(s) && Value(s) == n
            && (n > 0 ==> s[0] != '0')
            && (n < 10 ==> |s| == 1)
            && (n < 100 ==> |s| <= 2)
            && (n < 1000 ==> |s| <= 3)
    decreases n
  {
    if n >= 10 {
      DecimalNumeral(n / 10);
      var s := Decimal(n);
      assert s[..|s| - 1] == Decimal(n / 10);
    }
  }

  /** A zero in front does not change the value of a numeral. */
  lemma {:induction false} LeadingZero(s: string)
    requires AllDigits(s)
    ensures AllDigits("0" + s) && Value("0" + s) == Value(s)
  {
    var z := "0" + s;
    assert AllDigits(z) by {
      assert forall k :: 0 < k < |z| ==> z[k] == s[k - 1];
    }
    if s == [] {
      assert z[..0] == [];
    } else {
      assert z[..|z| - 1] == "0" + s[..|s| - 1];
      LeadingZero(s[..|s| - 1]);
    }
  }

  /** `s` with zeros in front up to `width` characters; never truncated. */
  function PadLeft(s: string, width: nat): string
    decreases width - |s|
  {
    if |s| >= width then s else PadLeft("0" + s, width)
  }

  /** Padding a numeral keeps its value; it reaches `width` characters, adding only zeros in front, and leaves a long enough numeral alone. */
  lemma {:induction false} PadLeftNumeral(s: string, width: nat)
    requires AllDigits(s)
    ensures var p := PadLeft(s, width);
            && AllDigits(p) && Value(p) == Value(s)
            && |p| == (if |s| >= width then |s| else width)
            && (|s| >= width ==> p == s)
            && (|s| < width ==> p[0] == '0')
    decreases width - |s|
  {
    if |s| < width {
      LeadingZero(s);
      PadLeftNumeral("0" + s, width);
    }
  }

  /** `{n:03d}`: the numeral of `n` with zeros in front up to width 3, never truncated. */
  function Pad3(n: nat): string {
    PadLeft(Decimal(n), 3)
  }

  /** `Pad3(n)` is a numeral of value `n`, at least three digits long (exactly three below 1000), with no zero beyond what width 3 needs. */
  lemma Pad3Numeral(n: nat)
    ensures AllDigits(Pad3(n)) && Value(Pad3(n)) == n
    ensures |Pad3(n)| >= 3
    ensures |Pad3(n)| > 3 ==> Pad3(n)[0] != '0'
    ensures n < 1000 ==> |Pad3(n)| == 3
  {
    DecimalNumeral(n);
    PadLeftNumeral(Decimal(n), 3);
  }

  /** The file name of one saved sample: scene index `scene` is 0-based, the name shows `scene + 1`. */
  function FileName(scene: nat, tag: string): string {
    Prefix + Pad3(scene + 1) + "_" + tag + Extension
  }

  /**
   * Shape of a name: `shot_`, at least three digits whose value is the
   * 1-based scene number (exactly three below scene 1000), `_`, the tag, `.jpg`.
   */
  lemma FileNameShape(scene: nat, tag: string)
    ensures var name := FileName(scene, tag);
            var digits := |name| - |Prefix| - 1 - |tag| - |Extension|;
            && digits >= 3 && (scene < 999 ==> digits == 3)
            && name[..|Prefix|] == Prefix
            && AllDigits(name[|Prefix|..|Prefix| + digits])
            && Value(name[|Prefix|..|Prefix| + digits]) == scene + 1
            && name[|Prefix| + digits] == '_'
            && name[|Prefix| + digits + 1..|name| - |Extension|] == tag
            && name[|name| - |Extension|..] == Extension
  {
    var p := Pad3(scene + 1);
    Pad3Numeral(scene + 1);
    var name := FileName(scene, tag);
    assert name == Prefix + p + "_" + tag + Extension;
    assert name[|Prefix|..|Prefix| + |p|] == p;
  }

  /** Length of the longest prefix of `s` made of digits. */
  function DigitRun(s: string): (k: nat)
    ensures k <= |s| && AllDigits(s[..k])
    ensures k < |s| ==> !IsDigit(s[k])
  {
    if s == [] || !IsDigit(s[0]) then 0
    else
      var k := 1 + DigitRun(s[1..]);
      assert s[..k] == [s[0]] + s[1..][..k - 1];
      k
  }

  /** Reads the part of a name between `shot_` and `.jpg`: a positive numeral, `_`, then the tag. */
  function ParseBody(body: string): Option<(nat, string)> {
    var d := DigitRun(body);
    if d == |body| || body[d] != '_' then None
    else
      var number := Value(body[..d]);
      if number == 0 then None else Some((number - 1, body[d + 1..]))
  }

  /** Reads a file name back into its 0-based scene index and its tag. */
  function ParseFileName(name: string): Option<(nat, string)> {
    if |name| < |Prefix| + |Extension| || name[..|Prefix|] != Prefix
       || name[|name| - |Extension|..] != Extension
    then None
    else ParseBody(name[|Prefix|..|name| - |Extension|])
  }

  /** A name between `shot_` and `.jpg` is read by reading what lies between them. */
  lemma ParseEnvelope(body: string)
    ensures ParseFileName(Prefix + body + Extension) == ParseBody(body)
  {
    var name := Prefix + body + Extension;
    assert name[..|Prefix|] == Prefix;
    assert name[|name| - |Extension|..] == Extension;
    assert name[|Prefix|..|name| - |Extension|] == body;
  }

  lemma DigitRunOfNumeral(p: string, r: string)
    requires AllDigits(p) && r != [] && !IsDigit(r[0])
    ensures DigitRun(p + r) == |p|
  {
    assert (p + r)[|p|] == r[0];
  }

  /** A positive numeral followed by `_` and a tag reads back as the numeral's value less one, and the tag. */
  lemma ParseBodyOf(p: string, rest: string)
    requires AllDigits(p) && Value(p) >= 1 && rest != [] && rest[0] == '_'
    ensures ParseBody(p + rest) == Some((Value(p) - 1, rest[1..]))
  {
    var body := p + rest;
    DigitRunOfNumeral(p, rest);
    assert body[|p|] == '_';
    assert body[..|p|] == p;
    assert body[|p| + 1..] == rest[1..];
  }

  /** Parsing a name assembled from a numeral and a tag recovers the numeral's value less one, and the tag. */
  lemma ParseAssembled(p: string, tag: string)
    requires AllDigits(p) && Value(p) >= 1
    ensures ParseFileName(Prefix + (p + ("_" + tag)) + Extension) == Some((Value(p) - 1, tag))
  {
    var rest := "_" + tag;
    ParseEnvelope(p + rest);
    ParseBodyOf(p, rest);
    assert rest[1..] == tag;
  }

  lemma FileNameRoundTrip(scene: nat, tag: string)
    ensures ParseFileName(FileName(scene, tag)) == Some((scene, tag))
  {
    var p := Pad3(scene + 1);
    Pad3Numeral(scene + 1);
    assert FileName(scene, tag) == Prefix + (p + ("_" + tag)) + Extension;
    ParseAssembled(p, tag);
  }

  /** Two samples get the same file name only if they have the same scene and the same tag. */
  lemma FileNameInjective(scene1: nat, tag1: string, scene2: nat, tag2: string)
    requires FileName(scene1, tag1) == FileName(scene2, tag2)
    ensures scene1 == scene2 && tag1 == tag2
  {
    FileNameRoundTrip(scene1, tag1);
    FileNameRoundTrip(scene2, tag2);
  }
}
