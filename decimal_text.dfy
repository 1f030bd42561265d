/**
 * FixValueToFloat (api/lib/utils.php): the normaliser the validator applies
 * to a `float` field before checking its length. A long input keeps only its
 * digits and separators, and its last three characters are read as the
 * decimal part with a comma turned into a point; a short input is kept. The
 * result is then padded so that at least two characters follow its first
 * point.
 */
module DecimalText {
  import opened Wrappers
  import opened PhpStrings

  /* ---------- The string built-ins it uses ---------- */

  predicate IsNumberChar(c: char) {
    IsDigit(c) || c == '.' || c == ','
  }

  /** preg_replace('/[^0-9.,]/', '', s) */
  function KeepNumberChars(s: string): (r: string)
    ensures |r| <= |s|
    ensures forall i :: 0 <= i < |r| ==> IsNumberChar(r[i])
  {
    if s == [] then []
    else KeepNumberChars(s[..|s| - 1]) + (if IsNumberChar(s[|s| - 1]) then [s[|s| - 1]] else [])
  }

  /** preg_replace('/[^0-9]/', '', s) */
  function KeepDigits(s: string): (r: string)
    ensures |r| <= |s|
    ensures AllDigits(r)
  {
    if s == [] then []
    else KeepDigits(s[..|s| - 1]) + (if IsDigit(s[|s| - 1]) then [s[|s| - 1]] else [])
  }

  /** str_replace(pat, rep, s): every occurrence of `pat`, scanning left to right, replaced by `rep`. */
  function StrReplace(s: string, pat: string, rep: string): string
    requires |pat| > 0
    decreases |s|
  {
    if |s| < |pat| then s
    else if s[..|pat|] == pat then rep + StrReplace(s[|pat|..], pat, rep)
    else [s[0]] + StrReplace(s[1..], pat, rep)
  }

  /** substr(s, -3) */
  function LastThree(s: string): string {
    if |s| <= 3 then s else s[|s| - 3..]
  }

  /** substr(s, 0, -3) */
  function AllButLastThree(s: string): string {
    if |s| <= 3 then "" else s[..|s| - 3]
  }

  /** strpos(s, c): the position of the first `c`. */
  function FirstIndexOf(s: string, c: char): (r: Option<nat>)
    ensures r.None? <==> c !in s
    ensures r.Some? ==> r.value < |s| && s[r.value] == c && c !in s[..r.value]
  {
    if s == [] then None
    else if s[0] == c then Some(0)
    else match FirstIndexOf(s[1..], c)
      case None => None
      case Some(i) =>
        assert s[..i + 1] == [s[0]] + s[1..][..i];
        Some(i + 1)
  }

  /** `strpos($s, ".") > 0`: a point that is not the first character. */
  predicate PointAfterStart(s: string) {
    var p := FirstIndexOf(s, '.');
    p.Some? && p.value > 0
  }

  /** strlen(substr($s, strpos($s, ".") + 1, 2)): how many of the two places after the first point are there. */
  function PlacesAfterPoint(s: string): nat
    requires '.' in s
  {
    var p := FirstIndexOf(s, '.').value;
    if |s| - p - 1 >= 2 then 2 else |s| - p - 1
  }

  /* ---------- FixValueToFloat ---------- */

  /** The text before padding. */
  function Normalised(value: string): string {
    if Utf8Length(value) > 3 then
      var v := KeepNumberChars(value);
      var pt1 := StrReplace(LastThree(v), ",", ".");
      var pt2 := KeepDigits(AllButLastThree(v));
      pt2 + pt1
    else
      StrReplace(value, "R|S|$,", "")
  }

  /** The three padding steps, in order. */
  function Padded(v: string): string {
    var v1 := if PointAfterStart(v) && PlacesAfterPoint(v) == 1 then v + "0" else v;
    var v2 := if PointAfterStart(v1) && PlacesAfterPoint(v1) == 0 then v1 + "00" else v1;
    // `strpos($value, ".") == 0` also holds when there is no point (false == 0)
    if FirstIndexOf(v2, '.').None? || FirstIndexOf(v2, '.') == Some(0) then v2 + ".00" else v2
  }

  function FixValueToFloat(value: string): string {
    Padded(Normalised(value))
  }

  /* ---------- What it guarantees ---------- */

  /** str_replace leaves a text shorter than the pattern alone. */
  lemma StrReplaceShort(s: string, pat: string, rep: string)
    requires 0 < |pat| && |s| < |pat|
    ensures StrReplace(s, pat, rep) == s
  {
  }

  /** str_replace leaves a text alone when the one-character pattern does not occur in it. */
  lemma {:induction false} StrReplaceAbsent(s: string, c: char, rep: string)
    requires c !in s
    ensures StrReplace(s, [c], rep) == s
    decreases |s|
  {
    if |s| >= 1 {
      assert s[..1] != [c] by {
        assert s[0] != c;
      }
      StrReplaceAbsent(s[1..], c, rep);
      assert s == [s[0]] + s[1..];
    }
  }

  /** A text of at most three bytes is not changed before padding: the currency pattern is six characters long. */
  lemma ShortInputKept(value: string)
    requires Utf8Length(value) <= 3
    ensures Normalised(value) == value
  {
    StrReplaceShort(value, "R|S|$,", "");
  }

  /** Padding only appends: nothing, "0", "00" or ".00". */
  lemma PaddingAppends(v: string)
    ensures exists tail :: tail in ["", "0", "00", ".00"] && Padded(v) == v + tail
  {
    var v1 := if PointAfterStart(v) && PlacesAfterPoint(v) == 1 then v + "0" else v;
    if v1 != v {
      PointStays(v, "0");
      assert !(PointAfterStart(v1) && PlacesAfterPoint(v1) == 0);
      assert Padded(v) == v + "0";
    } else {
      var v2 := if PointAfterStart(v1) && PlacesAfterPoint(v1) == 0 then v1 + "00" else v1;
      if v2 != v1 {
        PointStays(v1, "00");
        assert Padded(v) == v + "00";
      } else if FirstIndexOf(v2, '.').None? || FirstIndexOf(v2, '.') == Some(0) {
        assert Padded(v) == v + ".00";
      } else {
        assert Padded(v) == v + "";
      }
    }
  }

  /** Appending text without a point keeps the first point where it was. */
  lemma PointStays(v: string, tail: string)
    requires '.' in v && '.' !in tail
    ensures FirstIndexOf(v + tail, '.') == FirstIndexOf(v, '.')
  {
    var p := FirstIndexOf(v, '.').value;
    var w := v + tail;
    assert w[p] == '.';
    assert w[..p] == v[..p];
  }

  /** One place after a point that is not first: a "0" is appended. */
  lemma PaddedOnePlace(v: string)
    requires PointAfterStart(v) && PlacesAfterPoint(v) == 1
    ensures Padded(v) == v + "0"
  {
    PointStays(v, "0");
  }

  /** No place after a point that is not first: "00" is appended. */
  lemma PaddedNoPlaces(v: string)
    requires PointAfterStart(v) && PlacesAfterPoint(v) == 0
    ensures Padded(v) == v + "00"
  {
    PointStays(v, "00");
  }

  /** Padding a text without a point appends ".00". */
  lemma PaddedNoPoint(v: string)
    requires '.' !in v
    ensures Padded(v) == v + ".00"
  {
  }

  /** Padding a text whose first point comes first appends ".00". */
  lemma PaddedLeadingPoint(v: string)
    requires FirstIndexOf(v, '.') == Some(0)
    ensures Padded(v) == v + ".00"
  {
  }

  /** Padding leaves a text alone when its first point is not first and two places follow it. */
  lemma PaddedTwoPlaces(v: string)
    requires PointAfterStart(v) && PlacesAfterPoint(v) == 2
    ensures Padded(v) == v
  {
  }

  /** The result always has a point with at least two characters after the first point. */
  lemma {:induction false} HasTwoPlaces(value: string)
    ensures var r := FixValueToFloat(value);
      '.' in r && |r| - FirstIndexOf(r, '.').value - 1 >= 2
  {
    var v := Normalised(value);
    var v1 := if PointAfterStart(v) && PlacesAfterPoint(v) == 1 then v + "0" else v;
    if v1 != v {
      PointStays(v, "0");
    }
    var v2 := if PointAfterStart(v1) && PlacesAfterPoint(v1) == 0 then v1 + "00" else v1;
    if v2 != v1 {
      PointStays(v1, "00");
    }
    var r := FixValueToFloat(value);
    if FirstIndexOf(v2, '.').None? {
      assert r == v2 + ".00";
      assert r[|v2|] == '.';
      assert '.' !in r[..|v2|] by {
        assert r[..|v2|] == v2;
      }
      assert FirstIndexOf(r, '.').value == |v2|;
    } else if FirstIndexOf(v2, '.') == Some(0) {
      assert r == v2 + ".00";
      assert r[0] == '.';
    }
  }

  lemma {:induction false} KeepNumberCharsConcat(a: string, b: string)
    ensures KeepNumberChars(a + b) == KeepNumberChars(a) + KeepNumberChars(b)
    decreases |b|
  {
    if b != [] {
      var b' := b[..|b| - 1];
      assert (a + b)[..|a + b| - 1] == a + b';
      KeepNumberCharsConcat(a, b');
    } else {
      assert a + b == a;
    }
  }

  lemma {:induction false} KeepDigitsConcat(a: string, b: string)
    ensures KeepDigits(a + b) == KeepDigits(a) + KeepDigits(b)
    decreases |b|
  {
    if b != [] {
      var b' := b[..|b| - 1];
      assert (a + b)[..|a + b| - 1] == a + b';
      KeepDigitsConcat(a, b');
    } else {
      assert a + b == a;
    }
  }

  /** Keeping digits after keeping number characters keeps the digits. */
  lemma {:induction false} KeepDigitsOfNumberChars(s: string)
    ensures KeepDigits(KeepNumberChars(s)) == KeepDigits(s)
  {
    if s != [] {
      var init := s[..|s| - 1];
      var c := s[|s| - 1];
      KeepDigitsOfNumberChars(init);
      KeepDigitsConcat(KeepNumberChars(init), if IsNumberChar(c) then [c] else []);
    }
  }

  /** A text of digits keeps all of them. */
  lemma {:induction false} DigitsKept(d: string)
    requires AllDigits(d)
    ensures KeepNumberChars(d) == d && KeepDigits(d) == d
  {
    if d != [] {
      DigitsKept(d[..|d| - 1]);
    }
  }

  /** The long branch, spelled out. */
  lemma LongNormalised(value: string)
    requires Utf8Length(value) > 3
    ensures var v := KeepNumberChars(value);
      Normalised(value) == KeepDigits(AllButLastThree(v)) + StrReplace(LastThree(v), ",", ".")
  {
  }

  /** Splitting a text of digits three from the end and joining the parts again gives the text back. */
  lemma DigitsRejoined(d: string)
    requires AllDigits(d)
    ensures KeepDigits(AllButLastThree(d)) + StrReplace(LastThree(d), ",", ".") == d
  {
    var pre, post := AllButLastThree(d), LastThree(d);
    assert pre + post == d;
    DigitsKept(pre);
    assert ',' !in post;
    StrReplaceAbsent(post, ',', ".");
  }

  /** A text of digits is not changed before padding. */
  lemma {:induction false} DigitsNormalised(d: string)
    requires AllDigits(d)
    ensures Normalised(d) == d
  {
    assert IsAscii(d);
    AsciiLength(d);
    if |d| > 3 {
      LongNormalised(d);
      DigitsKept(d);
      DigitsRejoined(d);
    } else {
      ShortInputKept(d);
    }
  }

  /** A whole number gets ".00": "1234" becomes "1234.00". */
  lemma WholeNumberGetsCents(d: string)
    requires |d| > 0 && AllDigits(d)
    ensures FixValueToFloat(d) == d + ".00"
  {
    DigitsNormalised(d);
    assert '.' !in d;
    PaddedNoPoint(d);
  }

  /** Before padding, a separator and two digits at the end become a point and the digits after the other digits. */
  lemma {:induction false} SeparatorNormalised(s: string, w: string, sep: char, f: string)
    requires s == w + [sep] + f
    requires |w| > 0 && (sep == ',' || sep == '.') && |f| == 2 && AllDigits(f)
    ensures Normalised(s) == KeepDigits(w) + "." + f
  {
    assert Utf8Length(s) > 3;
    LongNormalised(s);
    SeparatorKept(w, sep, f);
    var v := KeepNumberChars(s);
    var kw := KeepNumberChars(w);
    assert v == kw + ([sep] + f);
    SplitLastThree(kw, [sep] + f);
    KeepDigitsOfNumberChars(w);
    SeparatorBecomesPoint(sep, f);
    assert Normalised(s) == KeepDigits(w) + ("." + f);
  }

  /** Cutting three characters from the end of a + b, where b has three, gives a and b back. */
  lemma SplitLastThree(a: string, b: string)
    requires |b| == 3
    ensures LastThree(a + b) == b && AllButLastThree(a + b) == a
  {
    var v := a + b;
    assert v[|v| - 3..] == b;
    if |a| > 0 {
      assert v[..|v| - 3] == a;
    }
  }

  lemma SeparatorKept(w: string, sep: char, f: string)
    requires (sep == ',' || sep == '.') && AllDigits(f)
    ensures KeepNumberChars(w + [sep] + f) == KeepNumberChars(w) + [sep] + f
  {
    KeepNumberCharsConcat(w, [sep] + f);
    DigitsKept(f);
    KeepNumberCharsConcat([sep], f);
    assert KeepNumberChars([sep]) == [sep] by {
      assert [sep][..0] == [];
    }
    assert w + [sep] + f == w + ([sep] + f);
  }

  lemma SeparatorBecomesPoint(sep: char, f: string)
    requires (sep == ',' || sep == '.') && AllDigits(f)
    ensures StrReplace([sep] + f, ",", ".") == "." + f
  {
    var tail := [sep] + f;
    StrReplaceAbsent(f, ',', ".");
    assert tail[1..] == f;
    if sep == ',' {
      assert tail[..1] == ",";
    } else {
      assert tail[..1] != ",";
    }
  }

  /**
   * A value ending in a separator and two digits, as in "1.234,56" or
   * "R$ 10,50", becomes its other digits, a point and the two digits: the
   * earlier separators and symbols are dropped. When no digit comes before
   * the separator, the point ends up first and ".00" is appended.
   */
  lemma {:induction false} CentsAfterSeparator(w: string, sep: char, f: string)
    requires |w| > 0 && (sep == ',' || sep == '.') && |f| == 2 && AllDigits(f)
    ensures KeepDigits(w) != "" ==> FixValueToFloat(w + [sep] + f) == KeepDigits(w) + "." + f
    ensures KeepDigits(w) == "" ==> FixValueToFloat(w + [sep] + f) == "." + f + ".00"
  {
    var s := w + [sep] + f;
    var d := KeepDigits(w);
    SeparatorNormalised(s, w, sep, f);
    var n := d + "." + f;
    assert '.' !in d;
    FirstPointAt(d, f);
    if d != "" {
      PaddedTwoPlaces(n);
    } else {
      PaddedLeadingPoint(n);
    }
  }

  /** The first point of a text whose head has none is the one after the head. */
  lemma FirstPointAt(a: string, b: string)
    requires '.' !in a
    ensures FirstIndexOf(a + "." + b, '.') == Some(|a|)
  {
    var n := a + "." + b;
    assert n[|a|] == '.';
    assert n[..|a|] == a;
  }

  /** Short inputs: ".5" keeps its leading point and gets ".00"; "0.5" gets a second place; "-5" keeps its sign. */
  lemma ShortExamples()
    ensures FixValueToFloat(".5") == ".5.00"
    ensures FixValueToFloat("0.5") == "0.50"
    ensures FixValueToFloat("-5") == "-5.00"
  {
    ShortInputKept(".5");
    ShortInputKept("0.5");
    ShortInputKept("-5");
    assert FirstIndexOf(".5", '.') == Some(0);
    assert FirstIndexOf("0.5", '.') == Some(1);
    assert FirstIndexOf("0.50", '.') == Some(1);
    assert FirstIndexOf("-5", '.') == None;
  }

  /** A negative whole number of three digits or more loses its sign: "-1234" becomes "1234.00". */
  lemma LongNegativeLosesSign(d: string)
    requires |d| >= 3 && AllDigits(d)
    ensures FixValueToFloat("-" + d) == d + ".00"
  {
    var s := "-" + d;
    assert Utf8Length(s) > 3;
    LongNormalised(s);
    SignDropped(d);
    DigitsRejoined(d);
    assert Normalised(s) == d;
    assert '.' !in d;
    PaddedNoPoint(d);
  }

  /** Keeping number characters drops a leading minus sign. */
  lemma SignDropped(d: string)
    requires AllDigits(d)
    ensures KeepNumberChars("-" + d) == d
  {
    KeepNumberCharsConcat("-", d);
    DigitsKept(d);
    assert KeepNumberChars("-") == [] by {
      assert "-"[..0] == [];
    }
  }
}
