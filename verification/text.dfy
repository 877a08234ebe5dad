/** String primitives of the JavaScript and Python runtimes the scripts rely on:
    `trim`, `split` with a string separator, `join`, decimal rendering, two-digit
    padding, ASCII lower-casing and the `^[A-Z]\.\s*` option-letter prefix. */
module Text {

  /** JavaScript's WhiteSpace and LineTerminator code points: exactly what
      `String.prototype.trim` removes and what the regular-expression class `\s` matches. */
  predicate IsSpace(c: char) {
    || ('\t' <= c <= '\r') || c == ' ' || c == '\U{A0}' || c == '\U{1680}'
    || ('\U{2000}' <= c <= '\U{200A}') || ('\U{2028}' <= c <= '\U{2029}')
    || c == '\U{202F}' || c == '\U{205F}' || c == '\U{3000}' || c == '\U{FEFF}'
  }

  /** Neither end of `s` is whitespace. */
  predicate IsTrimmed(s: string) {
    |s| == 0 || (!IsSpace(s[0]) && !IsSpace(s[|s| - 1]))
  }

  /** The suffix of `s` left after dropping leading whitespace. */
  function TrimStart(s: string): (r: string)
    ensures |r| <= |s| && r == s[|s| - |r|..]
    ensures |r| > 0 ==> !IsSpace(r[0])
    ensures forall i :: 0 <= i < |s| - |r| ==> IsSpace(s[i])
    decreases |s|
  {
    if |s| > 0 && IsSpace(s[0]) then TrimStart(s[1..]) else s
  }

  /** The prefix of `s` left after dropping trailing whitespace. */
  function TrimEnd(s: string): (r: string)
    ensures |r| <= |s| && r == s[..|r|]
    ensures |r| > 0 ==> !IsSpace(r[|r| - 1])
    ensures forall i :: |r| <= i < |s| ==> IsSpace(s[i])
    decreases |s|
  {
    if |s| > 0 && IsSpace(s[|s| - 1]) then TrimEnd(s[..|s| - 1]) else s
  }

  /** JavaScript's `String.prototype.trim`. */
  function Trim(s: string): (r: string)
    ensures IsTrimmed(r)
    ensures |r| <= |s|
    ensures IsTrimmed(s) ==> r == s
  {
    TrimEnd(TrimStart(s))
  }

  /** `Trim` keeps one contiguous slice of `s` and drops only whitespace on
      either side of it. */
  lemma TrimIsSlice(s: string)
    ensures var r, k := Trim(s), |s| - |TrimStart(s)|;
      0 <= k <= |s| - |r| && r == s[k..k + |r|]
      && (forall i :: 0 <= i < k ==> IsSpace(s[i]))
      && (forall i :: k + |r| <= i < |s| ==> IsSpace(s[i]))
  {
    var t := TrimStart(s);
    var r := TrimEnd(t);
    assert Trim(s) == r;
    var k := |s| - |t|;
    assert t == s[k..] && r == t[..|r|];
    SpaceTailShift(s, t, r, k);
  }

  /** Whitespace trailing `r` inside the suffix `t` of `s` trails it inside `s`. */
  lemma SpaceTailShift(s: string, t: string, r: string, k: nat)
    requires k <= |s| && t == s[k..]
    requires |r| <= |t| && r == t[..|r|]
    requires forall i :: 0 <= i < k ==> IsSpace(s[i])
    requires forall i :: |r| <= i < |t| ==> IsSpace(t[i])
    ensures 0 <= k <= |s| - |r| && r == s[k..k + |r|]
      && (forall i :: 0 <= i < k ==> IsSpace(s[i]))
      && (forall i :: k + |r| <= i < |s| ==> IsSpace(s[i]))
  {
    forall i | k + |r| <= i < |s| ensures IsSpace(s[i]) {
      assert s[i] == t[i - k];
    }
  }

  /** Trims every element of a list: `list.map(x => x.trim())`. */
  function TrimAll(xs: seq<string>): (r: seq<string>)
    ensures |r| == |xs|
    ensures forall i :: 0 <= i < |xs| ==> r[i] == Trim(xs[i])
  {
    if |xs| == 0 then [] else [Trim(xs[0])] + TrimAll(xs[1..])
  }

  lemma TrimAfterSpace(a: string)
    requires IsTrimmed(a)
    ensures Trim(" " + a) == a
  {
    assert (" " + a)[1..] == a;
  }

  lemma TrimBeforeNewline(x: string)
    requires IsTrimmed(x) && |x| > 0
    ensures Trim(x + "\n") == x
  {
    assert TrimStart(x + "\n") == x + "\n";
    assert (x + "\n")[..|x|] == x;
  }

  // ---------------------------------------------------------------------------
  // join and split

  /** JavaScript's `parts.join(sep)`. */
  function Join(parts: seq<string>, sep: string): string
  {
    if |parts| == 0 then ""
    else if |parts| == 1 then parts[0]
    else parts[0] + sep + Join(parts[1..], sep)
  }

  /** `pat` occurs in `s` starting at index `i`. */
  predicate OccursAt(s: string, pat: string, i: nat) {
    i + |pat| <= |s| && s[i..i + |pat|] == pat
  }

  predicate Contains(s: string, pat: string) {
    exists i: nat | i <= |s| :: OccursAt(s, pat, i)
  }

  /** JavaScript's `s.split(sep)` for a non-empty string separator: the pieces
      between the non-overlapping occurrences of `sep`, found left to right. */
  function Split(s: string, sep: string): (parts: seq<string>)
    requires |sep| > 0
    ensures |parts| > 0
    ensures Join(parts, sep) == s
    decreases |s|
  {
    if |s| < |sep| then [s]
    else if s[..|sep|] == sep then
      var rest := Split(s[|sep|..], sep);
      assert s == sep + s[|sep|..];
      [""] + rest
    else
      var rest := Split(s[1..], sep);
      var parts := [[s[0]] + rest[0]] + rest[1..];
      assert parts[1..] == rest[1..];
      assert s == [s[0]] + s[1..];
      parts
  }

  lemma OccursShift(s: string, pat: string, i: nat)
    requires |s| > 0
    ensures OccursAt(s[1..], pat, i) <==> OccursAt(s, pat, i + 1)
  {
    if i + |pat| <= |s[1..]| {
      assert s[1..][i..i + |pat|] == s[i + 1..i + 1 + |pat|];
    }
  }

  /** A string without the separator splits into itself alone. */
  lemma {:induction false} SplitWithoutSeparator(s: string, sep: string)
    requires |sep| > 0
    requires forall i: nat :: !OccursAt(s, sep, i)
    ensures Split(s, sep) == [s]
    decreases |s|
  {
    if |s| >= |sep| {
      assert !OccursAt(s, sep, 0);
      assert s[0..|sep|] == s[..|sep|];
      forall i: nat ensures !OccursAt(s[1..], sep, i) {
        OccursShift(s, sep, i);
      }
      SplitWithoutSeparator(s[1..], sep);
      assert [s[0]] + s[1..] == s;
    }
  }

  /** The first piece ends at the first occurrence of the separator. */
  lemma {:induction false} SplitAtFirst(a: string, sep: string, b: string)
    requires |sep| > 0
    requires forall i: nat :: i < |a| ==> !OccursAt(a + sep + b, sep, i)
    ensures Split(a + sep + b, sep) == [a] + Split(b, sep)
    decreases |a|
  {
    var s := a + sep + b;
    if |a| == 0 {
      assert s == sep + b;
      assert s[..|sep|] == sep;
      assert s[|sep|..] == b;
    } else {
      assert !OccursAt(s, sep, 0);
      assert s[0..|sep|] == s[..|sep|];
      assert s[1..] == a[1..] + sep + b;
      forall i: nat | i < |a[1..]| ensures !OccursAt(a[1..] + sep + b, sep, i) {
        OccursShift(s, sep, i);
      }
      SplitAtFirst(a[1..], sep, b);
      assert [a[0]] + a[1..] == a;
    }
  }

  /** `split` cuts at the leftmost occurrence of the separator: with none,
      the string is its own only piece; otherwise the first piece ends where the
      first occurrence starts and the remaining pieces split what follows it. */
  lemma {:induction false} SplitCutsLeftmost(s: string, sep: string)
    requires |sep| > 0
    ensures var parts := Split(s, sep);
      (|parts| == 1 <==> !Contains(s, sep))
      && (|parts| > 1 ==>
            OccursAt(s, sep, |parts[0]|)
            && (forall i: nat :: i < |parts[0]| ==> !OccursAt(s, sep, i))
            && parts[1..] == Split(s[|parts[0]| + |sep|..], sep))
    decreases |s|
  {
    var parts := Split(s, sep);
    if |s| < |sep| {
      assert parts == [s];
    } else if s[..|sep|] == sep {
      var rest := Split(s[|sep|..], sep);
      assert parts == [""] + rest;
      assert OccursAt(s, sep, 0);
    } else {
      var rest := Split(s[1..], sep);
      SplitCutsLeftmost(s[1..], sep);
      assert parts == [[s[0]] + rest[0]] + rest[1..];
      assert !OccursAt(s, sep, 0) by { assert s[0..|sep|] == s[..|sep|]; }
      forall i: nat ensures OccursAt(s[1..], sep, i) <==> OccursAt(s, sep, i + 1) {
        OccursShift(s, sep, i);
      }
      if |rest| == 1 {
        forall i: nat | 0 < i <= |s| ensures !OccursAt(s, sep, i) {
          assert !OccursAt(s[1..], sep, i - 1);
        }
      } else {
        var j := |rest[0]|;
        assert OccursAt(s, sep, j + 1);
        forall i: nat | i < |parts[0]| ensures !OccursAt(s, sep, i) {
          if i > 0 {
            assert !OccursAt(s[1..], sep, i - 1);
          }
        }
        assert s[1..][j + |sep|..] == s[j + 1 + |sep|..];
      }
    }
  }

  /** No piece of a split holds the separator. */
  lemma {:induction false} SplitPiecesFree(s: string, sep: string)
    requires |sep| > 0
    ensures forall k :: 0 <= k < |Split(s, sep)| ==> !Contains(Split(s, sep)[k], sep)
    decreases |s|
  {
    var parts := Split(s, sep);
    SplitCutsLeftmost(s, sep);
    var p := parts[0];
    assert p == s[..|p|] by {
      if |parts| > 1 {
        assert s == p + sep + Join(parts[1..], sep);
      }
    }
    if Contains(p, sep) {
      var i: nat :| i <= |p| && OccursAt(p, sep, i);
      assert s[i..i + |sep|] == p[i..i + |sep|];
      assert OccursAt(s, sep, i);
      assert false;
    }
    if |parts| > 1 {
      var tail := s[|p| + |sep|..];
      SplitPiecesFree(tail, sep);
      forall k | 1 <= k < |parts| ensures !Contains(parts[k], sep) {
        assert parts[k] == Split(tail, sep)[k - 1];
      }
    }
  }

  /** A one-character pattern occurs exactly where that character stands. */
  lemma CharOccurs(s: string, c: char, i: nat)
    ensures OccursAt(s, [c], i) <==> i < |s| && s[i] == c
  {
    if i < |s| {
      assert s[i..i + 1] == [s[i]];
    }
  }

  /** A character absent from `a` cannot start an occurrence before `a` ends. */
  lemma NoCharBefore(a: string, c: char, b: string)
    requires c !in a
    ensures forall i: nat :: i < |a| ==> !OccursAt(a + [c] + b, [c], i)
  {
    forall i: nat | i < |a| ensures !OccursAt(a + [c] + b, [c], i) {
      CharOccurs(a + [c] + b, c, i);
      assert (a + [c] + b)[i] == a[i];
    }
  }

  lemma NoChar(a: string, c: char)
    requires c !in a
    ensures forall i: nat :: !OccursAt(a, [c], i)
  {
    forall i: nat ensures !OccursAt(a, [c], i) {
      CharOccurs(a, c, i);
    }
  }

  /** Splitting on a single character undoes joining on it, when no piece holds it. */
  lemma {:induction false} SplitJoinChar(parts: seq<string>, c: char)
    requires |parts| > 0
    requires forall k :: 0 <= k < |parts| ==> c !in parts[k]
    ensures Split(Join(parts, [c]), [c]) == parts
    decreases |parts|
  {
    var p := parts[0];
    if |parts| == 1 {
      NoChar(p, c);
      SplitWithoutSeparator(p, [c]);
    } else {
      var rest := Join(parts[1..], [c]);
      NoCharBefore(p, c, rest);
      SplitAtFirst(p, [c], rest);
      SplitJoinChar(parts[1..], c);
      assert [p] + parts[1..] == parts;
    }
  }

  /** The pieces of a `", "`-joined list split on `,`: every element after the
      first keeps the space that followed its comma. */
  function Spaced(xs: seq<string>, lead: string): (r: seq<string>)
    ensures |r| == |xs|
    ensures |xs| > 0 ==> r[0] == lead + xs[0]
    ensures forall i :: 0 < i < |xs| ==> r[i] == " " + xs[i]
  {
    if |xs| == 0 then [] else [lead + xs[0]] + Spaced(xs[1..], " ")
  }

  lemma {:induction false} SplitCommaJoin(xs: seq<string>, lead: string)
    requires |xs| > 0
    requires ',' !in lead
    requires forall k :: 0 <= k < |xs| ==> ',' !in xs[k]
    ensures Split(lead + Join(xs, ", "), ",") == Spaced(xs, lead)
    decreases |xs|
  {
    var first := lead + xs[0];
    assert ',' !in first by {
      forall j | 0 <= j < |first| ensures first[j] != ',' {
        if j >= |lead| { assert first[j] == xs[0][j - |lead|]; }
      }
    }
    if |xs| == 1 {
      assert lead + Join(xs, ", ") == first;
      NoChar(first, ',');
      SplitWithoutSeparator(first, ",");
    } else {
      var rest := " " + Join(xs[1..], ", ");
      assert lead + Join(xs, ", ") == first + "," + rest;
      NoCharBefore(first, ',', rest);
      SplitAtFirst(first, ",", rest);
      SplitCommaJoin(xs[1..], " ");
    }
  }

  lemma TrimSpaced(xs: seq<string>, lead: string)
    requires lead == "" || lead == " "
    requires forall k :: 0 <= k < |xs| ==> IsTrimmed(xs[k])
    ensures TrimAll(Spaced(xs, lead)) == xs
  {
    var sp := Spaced(xs, lead);
    forall i | 0 <= i < |xs| ensures Trim(sp[i]) == xs[i] {
      if i == 0 && lead == "" {
        assert sp[i] == xs[i];
      } else {
        assert sp[i] == " " + xs[i];
        TrimAfterSpace(xs[i]);
      }
    }
  }

  /** Splitting a `", "`-joined list on `,` and trimming each piece gives the list
      back, when no element holds a comma or edge whitespace. */
  lemma SplitTrimJoin(xs: seq<string>)
    requires |xs| > 0
    requires forall k :: 0 <= k < |xs| ==> IsTrimmed(xs[k]) && ',' !in xs[k]
    ensures TrimAll(Split(Join(xs, ", "), ",")) == xs
  {
    SplitCommaJoin(xs, "");
    assert "" + Join(xs, ", ") == Join(xs, ", ");
    TrimSpaced(xs, "");
  }

  // ---------------------------------------------------------------------------
  // numbers

  function DigitChar(d: nat): (c: char)
    requires d < 10
    ensures '0' <= c <= '9'
  {
    ('0' as int + d) as char
  }

  /** The value of a decimal digit; other characters read as 0. */
  function DigitValue(c: char): nat {
    if '0' <= c <= '9' then c as int - '0' as int else 0
  }

  /** Python's `str(n)` and JavaScript's `n.toString()` for a natural number. */
  function Decimal(n: nat): (s: string)
    ensures 0 < |s|
    ensures |s| == 1 <==> n < 10
    ensures n < 100 ==> |s| <= 2
    ensures forall i :: 0 <= i < |s| ==> '0' <= s[i] <= '9'
    decreases n
  {
    if n < 10 then [DigitChar(n)] else Decimal(n / 10) + [DigitChar(n % 10)]
  }

  /** Reads a string of decimal digits back as a number. */
  function ParseDecimal(s: string): nat {
    if |s| == 0 then 0 else 10 * ParseDecimal(s[..|s| - 1]) + DigitValue(s[|s| - 1])
  }

  lemma {:induction false} ParseDecimalOfDecimal(n: nat)
    ensures ParseDecimal(Decimal(n)) == n
    decreases n
  {
    if n >= 10 {
      var s := Decimal(n);
      assert s[..|s| - 1] == Decimal(n / 10);
      ParseDecimalOfDecimal(n / 10);
    }
  }

  /** Zero padding to two digits: JavaScript's `n.toString().padStart(2, '0')` and
      Python's `f"{n:02d}"`. Wider numbers are not truncated. */
  function Pad2(n: nat): (s: string)
    ensures ParseDecimal(s) == n
    ensures n < 100 ==> |s| == 2
    ensures 2 <= |s|
    ensures forall i :: 0 <= i < |s| ==> '0' <= s[i] <= '9'
  {
    ParseDecimalOfDecimal(n);
    if n < 10 then
      var s := "0" + Decimal(n);
      assert s[..|s| - 1] == "0";
      s
    else Decimal(n)
  }

  // ---------------------------------------------------------------------------
  // case and option prefixes

  /** `toLowerCase` restricted to ASCII letters. */
  function LowerChar(c: char): char {
    if 'A' <= c <= 'Z' then (c as int + 32) as char else c
  }

  function Lower(s: string): (r: string)
    ensures |r| == |s|
    ensures forall i :: 0 <= i < |s| ==> r[i] == LowerChar(s[i])
  {
    seq(|s|, i requires 0 <= i < |s| => LowerChar(s[i]))
  }

  /** `text.replace(/^[A-Z]\.\s*\/, '')`: drops an option letter such as `"B. "`. */
  function StripOptionLetter(s: string): (r: string)
    ensures |s| >= 2 && 'A' <= s[0] <= 'Z' && s[1] == '.' ==>
              |r| <= |s| - 2 && r == s[|s| - |r|..]
              && (forall i :: 2 <= i < |s| - |r| ==> IsSpace(s[i]))
              && (|r| > 0 ==> !IsSpace(r[0]))
    ensures !(|s| >= 2 && 'A' <= s[0] <= 'Z' && s[1] == '.') ==> r == s
  {
    if |s| >= 2 && 'A' <= s[0] <= 'Z' && s[1] == '.' then TrimStart(s[2..]) else s
  }
}
