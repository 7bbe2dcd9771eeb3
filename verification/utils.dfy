/** The two string helpers of `src/lib/utils.ts`: `formatDuration`, which
    renders a video length given in milliseconds as `MM:SS`, and
    `snakeCaseToTitle`, which turns an enum value such as `no_subtitles`
    into a label such as `No Subtitles`. */
module Utils {
  import opened Common

  // ---------------------------------------------------------------------
  // Decimal digits, `Number.prototype.toString` and `padStart`
  // ---------------------------------------------------------------------

  predicate IsDigit(c: char)
  {
    '0' <= c <= '9'
  }

  predicate AllDigits(s: string)
  {
    forall i :: 0 <= i < |s| ==> IsDigit(s[i])
  }

  function DigitChar(n: nat): (c: char)
    requires n < 10
    ensures IsDigit(c) && (c as int) - ('0' as int) == n
  {
    (('0' as int) + n) as char
  }

  /** The decimal rendering of `n` (what `n.toString()` gives for a
      non-negative integer): no sign, no leading zero unless `n` is 0. */
  function Digits(n: nat): (s: string)
    ensures 1 <= |s| && AllDigits(s)
    ensures |s| > 1 ==> s[0] != '0'
  {
    if n < 10 then [DigitChar(n)] else Digits(n / 10) + [DigitChar(n % 10)]
  }

  /** The number a string of decimal digits denotes (leading zeros allowed). */
  function Value(s: string): nat
    requires AllDigits(s)
  {
    if s == [] then 0
    else Value(s[..|s| - 1]) * 10 + ((s[|s| - 1] as int) - ('0' as int))
  }

  /** Reading back a rendered number gives the number. */
  lemma {:induction false} ValueOfDigits(n: nat)
    ensures Value(Digits(n)) == n
  {
    if n >= 10 {
      var s := Digits(n);
      assert s[..|s| - 1] == Digits(n / 10);
      ValueOfDigits(n / 10);
    }
  }

  /** Numbers below 10 take one digit, numbers below 100 at most two. */
  lemma DigitsLength(n: nat)
    ensures n < 10 ==> |Digits(n)| == 1
    ensures n < 100 ==> |Digits(n)| <= 2
  {
    if 10 <= n < 100 {
      assert n / 10 < 10;
    }
  }

  /** A leading zero does not change the value. */
  lemma {:induction false} ValueLeadingZero(s: string)
    requires AllDigits(s)
    ensures AllDigits("0" + s) && Value("0" + s) == Value(s)
  {
    if s != [] {
      var t := "0" + s;
      assert t[..|t| - 1] == "0" + s[..|s| - 1];
      ValueLeadingZero(s[..|s| - 1]);
    }
  }

  /** `s.padStart(width, [fill])`: prepend `fill` until `s` is `width` long;
      a string already that long is returned unchanged. */
  function PadStart(s: string, width: nat, fill: char): (r: string)
    ensures |r| == if |s| >= width then |s| else width
    decreases width - |s|
  {
    if |s| >= width then s else PadStart([fill] + s, width, fill)
  }

  /** The padded string is `s` behind a run of `fill`. */
  lemma {:induction false} PadStartShape(s: string, width: nat, fill: char)
    ensures var r := PadStart(s, width, fill);
      && r[|r| - |s|..] == s
      && forall i :: 0 <= i < |r| - |s| ==> r[i] == fill
    decreases width - |s|
  {
    if |s| < width {
      var t := [fill] + s;
      var r := PadStart(s, width, fill);
      assert r == PadStart(t, width, fill);
      PadStartShape(t, width, fill);
      var k := |r| - |t|;
      assert r[k..] == t;
      assert r[k] == r[k..][0] == fill;
      assert r[k + 1..] == r[k..][1..] == t[1..] == s;
      forall i | 0 <= i < |r| - |s| ensures r[i] == fill {
        if i == k {
          assert r[i] == fill;
        }
      }
    }
  }

  /** Zero-padding keeps a string of digits and its value. */
  lemma {:induction false} PadStartValue(s: string, width: nat)
    requires AllDigits(s)
    ensures AllDigits(PadStart(s, width, '0'))
    ensures Value(PadStart(s, width, '0')) == Value(s)
    decreases width - |s|
  {
    if |s| < width {
      ValueLeadingZero(s);
      PadStartValue("0" + s, width);
    }
  }

  // ---------------------------------------------------------------------
  // formatDuration
  // ---------------------------------------------------------------------

  /** `Math.floor(duration / 60_000)`. */
  function Minutes(d: nat): (m: nat)
    ensures m * 60000 <= d < m * 60000 + 60000
  {
    d / 60000
  }

  /** `Math.floor((duration % 60_000) / 1_000)`. */
  function Seconds(d: nat): (s: nat)
    ensures s < 60
    ensures s * 1000 <= d % 60000 < s * 1000 + 1000
  {
    (d % 60000) / 1000
  }

  /** The two fields bracket the duration to within one second, and the
      seconds field is a valid second of a minute. */
  lemma DurationFields(d: nat)
    ensures Seconds(d) <= 59
    ensures Minutes(d) * 60000 + Seconds(d) * 1000 <= d < Minutes(d) * 60000 + Seconds(d) * 1000 + 1000
    ensures Minutes(d) * 60000 + Seconds(d) * 1000 == d - d % 1000
  {
    var m, r := d / 60000, d % 60000;
    assert d == m * 60000 + r;
    var s, q := r / 1000, r % 1000;
    assert r == s * 1000 + q;
    assert d == m * 60000 + s * 1000 + q;
    assert d % 1000 == q by {
      assert d == (m * 60 + s) * 1000 + q;
    }
  }

  /** `formatDuration`: minutes and seconds, each zero-padded to two
      digits, joined by ':'. */
  function FormatDuration(d: nat): (r: string)
    ensures |r| >= 5 && r[|r| - 3] == ':'
  {
    var mm := PadStart(Digits(Minutes(d)), 2, '0');
    var ss := PadStart(Digits(Seconds(d)), 2, '0');
    DigitsLength(Seconds(d));
    assert |ss| == 2;
    mm + [':'] + ss
  }

  /** Durations under 100 minutes render as exactly five characters `MM:SS`. */
  lemma FormatDurationShort(d: nat)
    requires d < 6000000
    ensures |FormatDuration(d)| == 5
  {
    DigitsLength(Minutes(d));
    DigitsLength(Seconds(d));
  }

  /** The position of the first `c` in `s`. */
  function IndexOf(s: string, c: char): (r: Option<nat>)
    ensures r.None? ==> c !in s
    ensures r.Some? ==> r.value < |s| && s[r.value] == c && c !in s[..r.value]
  {
    if s == [] then None
    else if s[0] == c then Some(0)
    else
      match IndexOf(s[1..], c)
      case None => None
      case Some(i) =>
        assert s[..i + 1] == [s[0]] + s[1..][..i];
        Some(i + 1)
  }

  /** The milliseconds a minutes field and a seconds field denote, or
      nothing when they are not both non-empty digit strings with seconds
      below 60. */
  function ParseFields(mm: string, ss: string): Option<nat>
  {
    if |mm| >= 1 && |ss| >= 1 && AllDigits(mm) && AllDigits(ss) && Value(ss) < 60
    then Some(Value(mm) * 60000 + Value(ss) * 1000)
    else None
  }

  /** The inverse reading of `MM:SS`: split at the first ':' and read both
      fields. */
  function ParseDuration(r: string): Option<nat>
  {
    match IndexOf(r, ':')
    case None => None
    case Some(i) => ParseFields(r[..i], r[i + 1..])
  }

  /** The first `c` of `a + [c] + b` is the one after `a` when `a` has none. */
  lemma {:induction false} IndexOfJoin(a: string, c: char, b: string)
    requires c !in a
    ensures IndexOf(a + [c] + b, c) == Some(|a|)
  {
    if a != [] {
      assert (a + [c] + b)[1..] == a[1..] + [c] + b;
      IndexOfJoin(a[1..], c, b);
    }
  }

  /** `MM:SS` with digit fields reads back as the minutes and seconds. */
  lemma ParseJoined(mm: string, ss: string, m: nat, sec: nat)
    requires |mm| >= 1 && |ss| >= 1 && AllDigits(mm) && AllDigits(ss)
    requires Value(mm) == m && Value(ss) == sec && sec < 60
    ensures ParseDuration(mm + [':'] + ss) == Some(m * 60000 + sec * 1000)
  {
    var r := mm + [':'] + ss;
    assert ':' !in mm by {
      forall i | 0 <= i < |mm| ensures mm[i] != ':' {
        assert IsDigit(mm[i]);
      }
    }
    IndexOfJoin(mm, ':', ss);
    assert r[..|mm|] == mm && r[|mm| + 1..] == ss;
  }

  /** A formatted duration reads back as its two fields. */
  lemma FormatDurationReads(d: nat)
    ensures ParseDuration(FormatDuration(d)) == Some(Minutes(d) * 60000 + Seconds(d) * 1000)
  {
    var m, sec := Minutes(d), Seconds(d);
    var mm := PadStart(Digits(m), 2, '0');
    var ss := PadStart(Digits(sec), 2, '0');
    FieldReads(m);
    FieldReads(sec);
    assert FormatDuration(d) == mm + [':'] + ss;
    ParseJoined(mm, ss, m, sec);
  }

  /** A zero-padded field is a digit string that reads back as its number. */
  lemma FieldReads(n: nat)
    ensures var t := PadStart(Digits(n), 2, '0');
      |t| >= 1 && AllDigits(t) && Value(t) == n
  {
    PadStartValue(Digits(n), 2);
    ValueOfDigits(n);
  }

  /** Round trip: reading back a formatted duration gives the duration with
      only its sub-second part dropped. */
  lemma FormatDurationParses(d: nat)
    ensures ParseDuration(FormatDuration(d)) == Some(d - d % 1000)
  {
    FormatDurationReads(d);
    DurationFields(d);
  }

  // ---------------------------------------------------------------------
  // snakeCaseToTitle
  // ---------------------------------------------------------------------

  /** A character of the regular expression class `\w`: `[A-Za-z0-9_]`. */
  predicate IsWordChar(c: char)
  {
    'a' <= c <= 'z' || 'A' <= c <= 'Z' || '0' <= c <= '9' || c == '_'
  }

  /** `\w` without the underscore: once the underscores are spaces, these
      are the characters that form words. */
  predicate IsAlnum(c: char)
  {
    IsWordChar(c) && c != '_'
  }

  /** `toUpperCase` on a `\w` character: ASCII letters only. */
  function Upper(c: char): (u: char)
    ensures 'a' <= c <= 'z' ==> 'A' <= u <= 'Z' && (u as int) + 32 == c as int
    ensures !('a' <= c <= 'z') ==> u == c
  {
    if 'a' <= c <= 'z' then ((c as int) - 32) as char else c
  }

  /** `str.replace(/_/g, " ")`. */
  function ReplaceUnderscores(s: string): (r: string)
    ensures |r| == |s|
  {
    if s == [] then []
    else [if s[0] == '_' then ' ' else s[0]] + ReplaceUnderscores(s[1..])
  }

  /** `.replace(/\b\w/g, char => char.toUpperCase())`: every word character
      with a word boundary before it (start of text, or a non-word
      character) is uppercased; `prevWord` tells whether the character
      before `s` was a word character. */
  function UpperWordStarts(s: string, prevWord: bool): (r: string)
    ensures |r| == |s|
  {
    if s == [] then []
    else [if IsWordChar(s[0]) && !prevWord then Upper(s[0]) else s[0]]
         + UpperWordStarts(s[1..], IsWordChar(s[0]))
  }

  function SnakeCaseToTitle(s: string): (r: string)
    ensures |r| == |s|
  {
    UpperWordStarts(ReplaceUnderscores(s), false)
  }

  /** Character `i` of `s` begins a word of the title: it is a letter or
      digit and the character before it (if any) is not. */
  predicate StartsWord(s: string, i: nat)
    requires i < |s|
  {
    IsAlnum(s[i]) && (i == 0 || !IsAlnum(s[i - 1]))
  }

  lemma {:induction false} ReplaceUnderscoresAt(s: string)
    ensures forall i :: 0 <= i < |s| ==>
      ReplaceUnderscores(s)[i] == if s[i] == '_' then ' ' else s[i]
  {
    if s != [] {
      ReplaceUnderscoresAt(s[1..]);
      assert forall i :: 1 <= i < |s| ==> s[i] == s[1..][i - 1];
    }
  }

  /** Character `i` of `s` is a word character with a word boundary
      before it; `prevWord` tells whether the character before `s` was a
      word character. */
  predicate BoundaryBefore(s: string, prevWord: bool, i: nat)
    requires i < |s|
  {
    IsWordChar(s[i]) && !(if i == 0 then prevWord else IsWordChar(s[i - 1]))
  }

  lemma {:induction false} UpperWordStartsAt(s: string, prevWord: bool)
    ensures forall i :: 0 <= i < |s| ==>
      UpperWordStarts(s, prevWord)[i] == if BoundaryBefore(s, prevWord, i) then Upper(s[i]) else s[i]
  {
    if s != [] {
      var t := s[1..];
      var rest := UpperWordStarts(t, IsWordChar(s[0]));
      var head := if IsWordChar(s[0]) && !prevWord then Upper(s[0]) else s[0];
      assert UpperWordStarts(s, prevWord) == [head] + rest;
      UpperWordStartsAt(t, IsWordChar(s[0]));
      forall i | 0 <= i < |s|
        ensures UpperWordStarts(s, prevWord)[i] == if BoundaryBefore(s, prevWord, i) then Upper(s[i]) else s[i]
      {
        if i >= 1 {
          assert t[i - 1] == s[i];
          if i >= 2 {
            assert t[i - 2] == s[i - 1];
          }
          assert BoundaryBefore(s, prevWord, i) == BoundaryBefore(t, IsWordChar(s[0]), i - 1);
          assert UpperWordStarts(s, prevWord)[i] == rest[i - 1];
        }
      }
    }
  }

  /** What `snakeCaseToTitle` does to each character: underscores become
      spaces, the first letter of each word is uppercased, and nothing
      else changes. */
  lemma SnakeCaseToTitleAt(s: string)
    ensures forall i :: 0 <= i < |s| ==>
      SnakeCaseToTitle(s)[i] ==
        if s[i] == '_' then ' '
        else if StartsWord(s, i) then Upper(s[i])
        else s[i]
  {
    var t := ReplaceUnderscores(s);
    ReplaceUnderscoresAt(s);
    UpperWordStartsAt(t, false);
    forall i | 0 <= i < |s|
      ensures SnakeCaseToTitle(s)[i] ==
        if s[i] == '_' then ' '
        else if StartsWord(s, i) then Upper(s[i])
        else s[i]
    {
      assert IsWordChar(t[i]) <==> IsAlnum(s[i]);
      if i > 0 {
        assert IsWordChar(t[i - 1]) <==> IsAlnum(s[i - 1]);
      }
    }
  }

  /** The title never contains an underscore. */
  lemma SnakeCaseToTitleNoUnderscore(s: string)
    ensures '_' !in SnakeCaseToTitle(s)
  {
    SnakeCaseToTitleAt(s);
    var r := SnakeCaseToTitle(s);
    forall i | 0 <= i < |r| ensures r[i] != '_' {
    }
  }

  /** A title is its own title. */
  lemma SnakeCaseToTitleIdempotent(s: string)
    ensures SnakeCaseToTitle(SnakeCaseToTitle(s)) == SnakeCaseToTitle(s)
  {
    var r := SnakeCaseToTitle(s);
    SnakeCaseToTitleAt(s);
    SnakeCaseToTitleAt(r);
    assert forall i :: 0 <= i < |s| ==> (IsAlnum(r[i]) <==> IsAlnum(s[i]));
    forall i | 0 <= i < |r| ensures SnakeCaseToTitle(r)[i] == r[i] {
      assert StartsWord(r, i) <==> StartsWord(s, i);
    }
  }
}
