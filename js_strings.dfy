/**
 * The JavaScript string and array built-ins the mnemonic code relies on:
 * `String.prototype.split` with a one-character separator, `Array.prototype.join`,
 * `Number.prototype.toString(2)`, `String.prototype.padStart` and `parseInt(s, 2)`.
 */
module JsStrings {
  import opened Binary
  import opened Results

  /** Number of occurrences of `c` in `s`. */
  function Count(s: string, c: char): nat {
    if |s| == 0 then 0 else (if s[0] == c then 1 else 0) + Count(s[1..], c)
  }

  /**
   * `s.split(c)`: the pieces between consecutive occurrences of `c`, empty pieces included,
   * so there is always one piece more than there are separators (`"".split(c)` is `[""]`).
   */
  function Split(s: string, c: char): (r: seq<string>)
    ensures |r| == Count(s, c) + 1
    ensures forall k :: 0 <= k < |r| ==> c !in r[k]
  {
    if |s| == 0 then [""]
    else
      var rest := Split(s[1..], c);
      if s[0] == c then [""] + rest
      else [[s[0]] + rest[0]] + rest[1..]
  }

  /** `ws.join(sep)`: no separator before the first or after the last element. */
  function Join(ws: seq<string>, sep: string): string {
    if |ws| == 0 then ""
    else if |ws| == 1 then ws[0]
    else ws[0] + sep + Join(ws[1..], sep)
  }

  /** Joining the pieces of a split with the same separator gives back the string. */
  lemma {:induction false} JoinOfSplit(s: string, c: char)
    ensures Join(Split(s, c), [c]) == s
  {
    if |s| > 0 {
      var rest := Split(s[1..], c);
      JoinOfSplit(s[1..], c);
      if s[0] == c {
        assert Split(s, c) == [""] + rest;
        assert ([""] + rest)[1..] == rest;
        assert s == [c] + s[1..];
      } else if |rest| == 1 {
        assert Split(s, c) == [[s[0]] + rest[0]];
        assert s == [s[0]] + s[1..];
      } else {
        var first := [s[0]] + rest[0];
        assert Split(s, c) == [first] + rest[1..];
        assert ([first] + rest[1..])[1..] == rest[1..];
        assert Join(rest, [c]) == rest[0] + [c] + Join(rest[1..], [c]);
        assert s == [s[0]] + s[1..];
      }
    }
  }

  lemma {:induction false} SplitWithoutSeparator(w: string, c: char)
    requires c !in w
    ensures Split(w, c) == [w]
  {
    if |w| > 0 {
      SplitWithoutSeparator(w[1..], c);
      assert w == [w[0]] + w[1..];
    }
  }

  /** Splitting at the first separator of `a + [c] + t` keeps `a` whole. */
  lemma {:induction false} SplitAfterPiece(a: string, t: string, c: char)
    requires c !in a
    ensures Split(a + [c] + t, c) == [a] + Split(t, c)
  {
    if |a| == 0 {
      assert a + [c] + t == [c] + t;
      assert ([c] + t)[1..] == t;
    } else {
      var s := a + [c] + t;
      assert s[0] == a[0] && s[1..] == a[1..] + [c] + t;
      SplitAfterPiece(a[1..], t, c);
      assert a == [a[0]] + a[1..];
    }
  }

  /** Splitting the join of separator-free pieces gives back exactly those pieces, in order. */
  lemma {:induction false} SplitOfJoin(ws: seq<string>, c: char)
    requires |ws| >= 1
    requires forall k :: 0 <= k < |ws| ==> c !in ws[k]
    ensures Split(Join(ws, [c]), c) == ws
  {
    if |ws| == 1 {
      SplitWithoutSeparator(ws[0], c);
    } else {
      SplitOfJoin(ws[1..], c);
      SplitAfterPiece(ws[0], Join(ws[1..], [c]), c);
      assert ws == [ws[0]] + ws[1..];
    }
  }

  /** Joining non-empty, separator-free pieces neither starts nor ends with the separator. */
  lemma {:induction false} JoinEnds(ws: seq<string>, c: char)
    requires |ws| >= 1
    requires forall k :: 0 <= k < |ws| ==> ws[k] != "" && c !in ws[k]
    ensures Join(ws, [c]) != ""
    ensures Join(ws, [c])[0] != c && Join(ws, [c])[|Join(ws, [c])| - 1] != c
  {
    if |ws| > 1 {
      var rest := Join(ws[1..], [c]);
      JoinEnds(ws[1..], c);
      assert Join(ws, [c]) == ws[0] + [c] + rest;
      assert Join(ws, [c])[0] == ws[0][0];
    }
  }

  /** A join splits into the join of a front part, a separator and the join of the rest. */
  lemma {:induction false} JoinAt(ws: seq<string>, n: nat, sep: string)
    requires 0 < n < |ws|
    ensures Join(ws, sep) == Join(ws[..n], sep) + sep + Join(ws[n..], sep)
  {
    if n > 1 {
      JoinAt(ws[1..], n - 1, sep);
      assert ws[1..][..n - 1] == ws[..n][1..];
      assert ws[1..][n - 1..] == ws[n..];
    }
  }

  /** How `Array.prototype.join` renders an element: `undefined` as nothing. */
  function Render(w: Option<string>): string {
    match w
    case None => ""
    case Some(text) => text
  }

  function RenderAll(ws: seq<Option<string>>): (r: seq<string>)
    ensures |r| == |ws| && forall k :: 0 <= k < |ws| ==> r[k] == Render(ws[k])
  {
    seq(|ws|, k requires 0 <= k < |ws| => Render(ws[k]))
  }

  /** `ws.join(sep)` on an array whose slots may hold `undefined`. */
  function JoinArray(ws: seq<Option<string>>, sep: string): string {
    Join(RenderAll(ws), sep)
  }

  /**
   * `s.slice(start, end)` for `0 <= start <= end`: the characters from `start` on, stopping
   * before `end`, with both positions clamped to the end of the string.
   */
  function Slice(s: string, start: nat, end: nat): (r: string)
    requires start <= end
    ensures |r| == (if end <= |s| then end else |s|) - (if start <= |s| then start else |s|)
    ensures forall k :: 0 <= k < |r| ==> r[k] == s[start + k]
  {
    var lo := if start <= |s| then start else |s|;
    var hi := if end <= |s| then end else |s|;
    s[lo..hi]
  }

  // ---- Number.prototype.toString(2) and String.prototype.padStart ----

  function DigitChar(d: nat): char
    requires d < 2
  {
    if d == 1 then '1' else '0'
  }

  /**
   * `n.toString(2)` for a non-negative integer: the shortest binary rendering,
   * without leading zeros (so `"0"` for zero).
   */
  function ToStringRadix2(n: nat): (r: string)
    ensures IsBinary(r) && BinValue(r) == n
    ensures |r| >= 1
    ensures r[0] == '1' || r == "0"
  {
    if n < 2 then [DigitChar(n)]
    else
      var front := ToStringRadix2(n / 2);
      var r := front + [DigitChar(n % 2)];
      assert r[..|r| - 1] == front;
      r
  }

  /** A value below 2^k needs at most k binary digits. */
  lemma {:induction false} ToStringRadix2Length(n: nat, k: nat)
    requires k >= 1 && n < Pow2(k)
    ensures |ToStringRadix2(n)| <= k
  {
    if n >= 2 {
      ToStringRadix2Length(n / 2, k - 1);
    }
  }

  function Repeat(ch: char, n: nat): (r: string)
    ensures |r| == n && forall k :: 0 <= k < n ==> r[k] == ch
  {
    if n == 0 then "" else [ch] + Repeat(ch, n - 1)
  }

  /** `s.padStart(width, ch)` with a one-character filler. */
  function PadStart(s: string, width: nat, ch: char): (r: string)
    ensures |r| == if |s| >= width then |s| else width
    ensures r[|r| - |s|..] == s
    ensures forall k :: 0 <= k < |r| - |s| ==> r[k] == ch
  {
    if |s| >= width then s else Repeat(ch, width - |s|) + s
  }

  /** Padding a binary string with zeros keeps it binary and keeps its value. */
  lemma PadStartWithZeros(s: string, width: nat)
    ensures BinValue(PadStart(s, width, '0')) == BinValue(s)
    ensures IsBinary(s) ==> IsBinary(PadStart(s, width, '0'))
  {
    var r := PadStart(s, width, '0');
    var zeros := r[..|r| - |s|];
    assert r == zeros + s;
    BinValueOfZeros(zeros);
    BinValueAppend(zeros, s);
  }

  // ---- parseInt(s, 2) ----

  /** The white space and line terminators JavaScript strips before a number. */
  predicate IsJsWhiteSpace(ch: char) {
    ch == '\t' || ch == '\n' || ch == '\U{B}' || ch == '\U{C}' || ch == '\r' || ch == ' '
    || ch == '\U{A0}' || ch == '\U{1680}' || ('\U{2000}' <= ch <= '\U{200A}')
    || ch == '\U{2028}' || ch == '\U{2029}' || ch == '\U{202F}' || ch == '\U{205F}'
    || ch == '\U{3000}' || ch == '\U{FEFF}'
  }

  function TrimStart(s: string): (r: string)
    ensures |r| <= |s| && r == s[|s| - |r|..]
    ensures forall k :: 0 <= k < |s| - |r| ==> IsJsWhiteSpace(s[k])
    ensures |r| == 0 || !IsJsWhiteSpace(r[0])
  {
    if |s| > 0 && IsJsWhiteSpace(s[0]) then TrimStart(s[1..]) else s
  }

  /** The longest prefix of `s` made of binary digits. */
  function BinaryDigitPrefix(s: string): (r: string)
    ensures |r| <= |s| && r == s[..|r|] && IsBinary(r)
    ensures |r| == |s| || !IsBit(s[|r|])
  {
    if |s| > 0 && IsBit(s[0]) then [s[0]] + BinaryDigitPrefix(s[1..]) else ""
  }

  /**
   * A JavaScript number as `parseInt` produces it. Negative zero is folded into `Num(0)`:
   * the only use of the result here is as an array index, and `-0` indexes like `0`.
   */
  datatype JsNumber = NaN | Num(value: int)

  /**
   * `parseInt(s, 2)`: skip leading white space, take an optional sign, then read the longest
   * run of binary digits; no digit at all gives NaN. The magnitude fits in |s| bits.
   */
  function ParseIntBase2(s: string): (r: JsNumber)
    ensures r.Num? ==> -(Pow2(|s|) as int) < r.value < Pow2(|s|)
  {
    var t := TrimStart(s);
    var negative := |t| > 0 && t[0] == '-';
    var u := if |t| > 0 && (t[0] == '-' || t[0] == '+') then t[1..] else t;
    var z := BinaryDigitPrefix(u);
    Pow2Monotonic(|z|, |s|);
    if |z| == 0 then NaN
    else if negative then Num(-(BinValue(z) as int))
    else Num(BinValue(z))
  }

  lemma {:induction false} BinaryDigitPrefixOfBinary(s: string)
    requires IsBinary(s)
    ensures BinaryDigitPrefix(s) == s
  {
    if |s| > 0 {
      assert IsBinary(s[1..]);
      BinaryDigitPrefixOfBinary(s[1..]);
      assert s == [s[0]] + s[1..];
    }
  }

  /** On a non-empty binary string `parseInt(s, 2)` is the string's big-endian value. */
  lemma ParseIntOfBinary(s: string)
    requires IsBinary(s) && |s| > 0
    ensures ParseIntBase2(s) == Num(BinValue(s))
  {
    assert !IsJsWhiteSpace(s[0]);
    assert TrimStart(s) == s;
    BinaryDigitPrefixOfBinary(s);
  }
}
