/**
 Byte-string helpers the relay borrows from Go's standard library:
 `bytes.TrimRight`, `strings.Split`, `strings.Join` and `fmt`'s `%03d`.
 A Go string or byte slice is modelled as a `string` whose every char holds
 one byte, so `|s|` is Go's `len(s)`.
 */
module Text {

  /* ---------------------------------------------------------------------
     bytes.TrimRight(s, cutset)
     --------------------------------------------------------------------- */

  /** Removes every trailing byte that occurs in `cutset`. */
  function TrimRight(s: string, cutset: string): (r: string)
    ensures r <= s
    ensures r == [] || r[|r| - 1] !in cutset
    ensures forall i :: |r| <= i < |s| ==> s[i] in cutset
    decreases |s|
  {
    if |s| > 0 && s[|s| - 1] in cutset then TrimRight(s[..|s| - 1], cutset) else s
  }

  /** The three properties of `TrimRight`'s contract single out its result:
      any prefix that does not end in the cutset and is followed only by
      cutset bytes is the trimmed string. */
  lemma TrimRightUnique(s: string, cutset: string, r: string)
    requires r <= s
    requires r == [] || r[|r| - 1] !in cutset
    requires forall i :: |r| <= i < |s| ==> s[i] in cutset
    ensures r == TrimRight(s, cutset)
  {
    var t := TrimRight(s, cutset);
    assert |t| == |r|;
  }

  /** Appending only cutset bytes to a string that does not end in the
      cutset is undone by `TrimRight`. */
  lemma TrimRightAppended(x: string, tail: string, cutset: string)
    requires x == [] || x[|x| - 1] !in cutset
    requires forall i :: 0 <= i < |tail| ==> tail[i] in cutset
    ensures TrimRight(x + tail, cutset) == x
  {
    var s := x + tail;
    assert x <= s;
    forall i | |x| <= i < |s|
      ensures s[i] in cutset
    {
      assert s[i] == tail[i - |x|];
    }
    TrimRightUnique(s, cutset, x);
  }

  /** Trimming twice is trimming once. */
  lemma TrimRightIdempotent(s: string, cutset: string)
    ensures TrimRight(TrimRight(s, cutset), cutset) == TrimRight(s, cutset)
  {
    var t := TrimRight(s, cutset);
    TrimRightAppended(t, [], cutset);
    assert t + [] == t;
  }

  /* ---------------------------------------------------------------------
     strings.Split(s, sep) and strings.Join(ts, sep) for a one-byte sep
     --------------------------------------------------------------------- */

  /** Number of occurrences of `c` in `s`. */
  function Count(s: string, c: char): nat
    decreases |s|
  {
    if |s| == 0 then 0 else (if s[0] == c then 1 else 0) + Count(s[1..], c)
  }

  /** Splits `s` at every occurrence of `sep`: `n` separators give `n + 1`
      tokens, so adjacent separators yield an empty token and the empty
      string yields one empty token. */
  function Split(s: string, sep: char): (r: seq<string>)
    ensures |r| == Count(s, sep) + 1
    ensures forall i :: 0 <= i < |r| ==> sep !in r[i]
    decreases |s|
  {
    if |s| == 0 then [""]
    else
      var rest := Split(s[1..], sep);
      if s[0] == sep then [""] + rest
      else [[s[0]] + rest[0]] + rest[1..]
  }

  /** Concatenates the tokens with `sep` between neighbours. */
  function Join(ts: seq<string>, sep: char): string
    decreases |ts|
  {
    if |ts| == 0 then ""
    else if |ts| == 1 then ts[0]
    else ts[0] + [sep] + Join(ts[1..], sep)
  }

  /** Joining the pieces of a split gives back the original string. */
  lemma {:induction false} JoinSplit(s: string, sep: char)
    ensures Join(Split(s, sep), sep) == s
    decreases |s|
  {
    if |s| > 0 {
      var rest := Split(s[1..], sep);
      JoinSplit(s[1..], sep);
      assert s == [s[0]] + s[1..];
      if s[0] == sep {
        assert ([""] + rest)[1..] == rest;
      } else if |rest| > 1 {
        var r := [[s[0]] + rest[0]] + rest[1..];
        assert r[1..] == rest[1..];
        assert Join(rest, sep) == rest[0] + [sep] + Join(rest[1..], sep);
        assert Join(r, sep) == [s[0]] + rest[0] + [sep] + Join(rest[1..], sep);
      }
    }
  }

  /** A string free of the separator splits into itself alone. */
  lemma {:induction false} SplitNoSep(t: string, sep: char)
    requires sep !in t
    ensures Split(t, sep) == [t]
    decreases |t|
  {
    if |t| > 0 {
      SplitNoSep(t[1..], sep);
      assert [t[0]] + t[1..] == t;
    }
  }

  /** A separator-free head followed by the separator splits off as one
      token. */
  lemma {:induction false} SplitHead(t: string, sep: char, u: string)
    requires sep !in t
    ensures Split(t + [sep] + u, sep) == [t] + Split(u, sep)
    decreases |t|
  {
    var s := t + [sep] + u;
    if |t| == 0 {
      assert s == [sep] + u;
      assert s[1..] == u;
    } else {
      assert s[1..] == t[1..] + [sep] + u;
      SplitHead(t[1..], sep, u);
      assert [t[0]] + t[1..] == t;
    }
  }

  /** Splitting a join of separator-free tokens gives back the tokens. */
  lemma {:induction false} SplitJoin(ts: seq<string>, sep: char)
    requires |ts| >= 1
    requires forall i :: 0 <= i < |ts| ==> sep !in ts[i]
    ensures Split(Join(ts, sep), sep) == ts
    decreases |ts|
  {
    if |ts| == 1 {
      SplitNoSep(ts[0], sep);
    } else {
      SplitJoin(ts[1..], sep);
      SplitHead(ts[0], sep, Join(ts[1..], sep));
      assert [ts[0]] + ts[1..] == ts;
    }
  }

  /** Joining k separator-free tokens puts exactly k - 1 separators
      between them. */
  lemma JoinCount(ts: seq<string>, sep: char)
    requires |ts| >= 1
    requires forall i :: 0 <= i < |ts| ==> sep !in ts[i]
    ensures Count(Join(ts, sep), sep) == |ts| - 1
  {
    SplitJoin(ts, sep);
  }

  /* ---------------------------------------------------------------------
     Decimal rendering, as fmt's %d and %03d print a non-negative int
     --------------------------------------------------------------------- */

  predicate IsDigit(c: char) {
    '0' <= c <= '9'
  }

  predicate AllDigits(s: string) {
    forall i :: 0 <= i < |s| ==> IsDigit(s[i])
  }

  function DigitChar(d: nat): (c: char)
    requires d < 10
    ensures IsDigit(c)
  {
    "0123456789"[d]
  }

  function DigitValue(c: char): nat
    requires IsDigit(c)
  {
    (c as int - '0' as int) as nat
  }

  /** The number a string of decimal digits denotes (leading zeros allowed);
      this is the reference reading of the renderings below. */
  function DecimalValue(s: string): nat
    requires AllDigits(s)
    decreases |s|
  {
    if |s| == 0 then 0 else DecimalValue(s[..|s| - 1]) * 10 + DigitValue(s[|s| - 1])
  }

  /** `%d` of a non-negative number: the shortest decimal numeral. */
  function Decimal(n: nat): (r: string)
    ensures |r| >= 1 && AllDigits(r)
    ensures r[0] == '0' ==> n == 0
    decreases n
  {
    if n < 10 then [DigitChar(n)] else Decimal(n / 10) + [DigitChar(n % 10)]
  }

  /** Reading back the numeral `Decimal` prints gives the number. */
  lemma {:induction false} DecimalRoundTrip(n: nat)
    ensures DecimalValue(Decimal(n)) == n
    decreases n
  {
    if n >= 10 {
      var r := Decimal(n);
      DecimalRoundTrip(n / 10);
      assert r[..|r| - 1] == Decimal(n / 10);
      assert DigitValue(DigitChar(n % 10)) == n % 10 by {
        var d := n % 10;
        assert d == 0 || d == 1 || d == 2 || d == 3 || d == 4 || d == 5 || d == 6 || d == 7 || d == 8 || d == 9;
      }
    } else {
      assert DigitValue(DigitChar(n)) == n by {
        assert n == 0 || n == 1 || n == 2 || n == 3 || n == 4 || n == 5 || n == 6 || n == 7 || n == 8 || n == 9;
      }
    }
  }

  function Zeros(k: nat): (z: string)
    ensures |z| == k && AllDigits(z)
    ensures forall i :: 0 <= i < k ==> z[i] == '0'
  {
    seq(k, _ => '0')
  }

  /** Leading zeros do not change the value of a numeral. */
  lemma {:induction false} LeadingZeros(k: nat, s: string)
    requires AllDigits(s)
    ensures AllDigits(Zeros(k) + s)
    ensures DecimalValue(Zeros(k) + s) == DecimalValue(s)
    decreases |s|
  {
    var z := Zeros(k) + s;
    if |s| == 0 {
      assert z == Zeros(k);
      ZerosValue(k);
    } else {
      assert z[..|z| - 1] == Zeros(k) + s[..|s| - 1];
      LeadingZeros(k, s[..|s| - 1]);
    }
  }

  lemma {:induction false} ZerosValue(k: nat)
    ensures DecimalValue(Zeros(k)) == 0
    decreases k
  {
    if k > 0 {
      assert Zeros(k)[..k - 1] == Zeros(k - 1);
      ZerosValue(k - 1);
    }
  }

  /** `%03d` of a non-negative number: its numeral, left-padded with zeros
      to at least three digits and never padded beyond that. */
  function Pad3(n: nat): (r: string)
    ensures AllDigits(r) && |r| >= 3
    ensures DecimalValue(r) == n
    ensures |r| == 3 || r[0] != '0'
  {
    var d := Decimal(n);
    DecimalRoundTrip(n);
    LeadingZeros(if |d| < 3 then 3 - |d| else 0, d);
    Zeros(if |d| < 3 then 3 - |d| else 0) + d
  }
}
