/** The parts of Go's `strings`, `unicode` and `strconv` packages that the
    discovery engine relies on, over `string` = `seq<char>`. */
module Text {
  import opened Common

  /** Go's `unicode.IsSpace`: the ASCII white space characters, U+0085,
      U+00A0 and the other Unicode White_Space characters. */
  predicate IsSpace(c: char) {
    || c == ' ' || c == '\t' || c == '\n' || c == '\U{B}' || c == '\U{C}' || c == '\r'
    || c == '\U{85}' || c == '\U{A0}' || c == '\U{1680}'
    || ('\U{2000}' <= c <= '\U{200A}')
    || c == '\U{2028}' || c == '\U{2029}' || c == '\U{202F}' || c == '\U{205F}' || c == '\U{3000}'
  }

  /** A non-empty string without white space: what `strings.Fields` yields. */
  predicate IsField(f: string) {
    f != [] && forall i :: 0 <= i < |f| ==> !IsSpace(f[i])
  }

  /** The number of white-space characters `s` starts with. */
  function LeadingSpace(s: string): (n: nat)
    ensures n <= |s| && (n < |s| ==> !IsSpace(s[n]))
    ensures forall k :: 0 <= k < n ==> IsSpace(s[k])
  {
    if s != [] && IsSpace(s[0]) then 1 + LeadingSpace(s[1..]) else 0
  }

  /** The number of white-space characters `s` ends with. */
  function TrailingSpace(s: string): (n: nat)
    ensures n <= |s| && (n < |s| ==> !IsSpace(s[|s| - n - 1]))
    ensures forall k :: |s| - n <= k < |s| ==> IsSpace(s[k])
  {
    if s != [] && IsSpace(s[|s| - 1]) then 1 + TrailingSpace(s[..|s| - 1]) else 0
  }

  /** Go's `strings.TrimSpace`: `s` without its leading and trailing white space. */
  function TrimSpace(s: string): (r: string)
    ensures r != [] ==> !IsSpace(r[0]) && !IsSpace(r[|r| - 1])
  {
    var t := s[LeadingSpace(s)..];
    t[..|t| - TrailingSpace(t)]
  }

  /** `TrimSpace` cuts `s` into white space, the result, and white space;
      `i` is where the result starts. */
  lemma {:induction false} TrimSpaceSpec(s: string) returns (i: nat)
    ensures i + |TrimSpace(s)| <= |s|
    ensures forall k :: 0 <= k < |TrimSpace(s)| ==> TrimSpace(s)[k] == s[i + k]
    ensures forall k :: 0 <= k < i ==> IsSpace(s[k])
    ensures forall k :: i + |TrimSpace(s)| <= k < |s| ==> IsSpace(s[k])
  {
    i := LeadingSpace(s);
    var t := s[i..];
    assert forall k :: |t| - TrailingSpace(t) <= k < |t| ==> t[k] == s[i + k];
  }

  /** Trimming a trimmed string changes nothing. */
  lemma {:induction false} TrimSpaceIdempotent(s: string)
    ensures TrimSpace(TrimSpace(s)) == TrimSpace(s)
  {
    var r := TrimSpace(s);
    if r != [] {
      assert LeadingSpace(r) == 0;
      assert TrailingSpace(r) == 0;
    }
  }

  /** The longest prefix of `s` without white space. */
  function Word(s: string): (w: string)
    ensures |w| <= |s| && w == s[..|w|]
    ensures forall i :: 0 <= i < |w| ==> !IsSpace(w[i])
    ensures |w| < |s| ==> IsSpace(s[|w|])
  {
    if s == [] || IsSpace(s[0]) then [] else [s[0]] + Word(s[1..])
  }

  /** Go's `strings.Fields`: the maximal runs of non-white-space characters. */
  function Fields(s: string): (r: seq<string>)
    ensures forall i :: 0 <= i < |r| ==> IsField(r[i])
    decreases |s|
  {
    if s == [] then []
    else if IsSpace(s[0]) then Fields(s[1..])
    else
      var w := Word(s);
      [w] + Fields(s[|w|..])
  }

  /** `w` occurs in `s` at position `p` as a maximal run: white space or an
      end of `s` on either side. */
  predicate FieldAt(s: string, w: string, p: nat) {
    && p + |w| <= |s| && s[p..p + |w|] == w
    && (p == 0 || IsSpace(s[p - 1]))
    && (p + |w| == |s| || IsSpace(s[p + |w|]))
  }

  /** The words of `Fields(s)` are the maximal runs of non-white-space
      characters of `s`, left to right: each word sits at its position
      `pos[i]` with white space or an end on either side, the positions
      ascend with a gap between words, and every other character of `s`
      lies inside some word. */
  lemma {:induction false} FieldsPositions(s: string) returns (pos: seq<nat>)
    ensures |pos| == |Fields(s)|
    ensures forall i :: 0 <= i < |pos| ==> FieldAt(s, Fields(s)[i], pos[i])
    ensures forall i :: 0 <= i < |pos| - 1 ==> pos[i] + |Fields(s)[i]| < pos[i + 1]
    ensures forall k :: 0 <= k < |s| && !IsSpace(s[k]) ==>
              exists i :: 0 <= i < |pos| && pos[i] <= k < pos[i] + |Fields(s)[i]|
    decreases |s|
  {
    if s == [] {
      pos := [];
    } else if IsSpace(s[0]) {
      var rest := FieldsPositions(s[1..]);
      pos := ShiftFields(s, 1, Fields(s[1..]), rest);
    } else {
      var w := Word(s);
      var ws := Fields(s[|w|..]);
      var rest := FieldsPositions(s[|w|..]);
      assert s[0..|w|] == w;
      pos := WordThenFields(s, w, ws, rest);
      assert Fields(s) == [w] + ws;
    }
  }

  /** The positions of the runs of `s` when `s` starts with the run `w`,
      from the positions `rest` of the runs `ws` of what follows `w`. */
  lemma WordThenFields(s: string, w: string, ws: seq<string>, rest: seq<nat>) returns (pos: seq<nat>)
    requires IsField(w) && FieldAt(s, w, 0)
    requires var t := s[|w|..];
             && |rest| == |ws|
             && (forall i :: 0 <= i < |rest| ==> IsField(ws[i]) && FieldAt(t, ws[i], rest[i]))
             && (forall i :: 0 <= i < |rest| - 1 ==> rest[i] + |ws[i]| < rest[i + 1])
             && (forall k :: 0 <= k < |t| && !IsSpace(t[k]) ==>
                   exists i :: 0 <= i < |rest| && rest[i] <= k < rest[i] + |ws[i]|)
    ensures var fs := [w] + ws;
            && |pos| == |fs|
            && (forall i :: 0 <= i < |pos| ==> FieldAt(s, fs[i], pos[i]))
            && (forall i :: 0 <= i < |pos| - 1 ==> pos[i] + |fs[i]| < pos[i + 1])
            && (forall k :: 0 <= k < |s| && !IsSpace(s[k]) ==>
                  exists i :: 0 <= i < |pos| && pos[i] <= k < pos[i] + |fs[i]|)
  {
    var t := s[|w|..];
    // What follows `w` starts with white space, so no run of it starts at 0.
    forall i | 0 <= i < |rest| ensures rest[i] != 0 {
      assert t[rest[i]] == ws[i][0] && !IsSpace(t[rest[i]]);
    }
    var shifted := ShiftFields(s, |w|, ws, rest);
    pos := [0] + shifted;
    ConsCovers(s, w, ws, shifted);
  }

  /** A word at the start of `s`, then runs covering the rest, cover `s`. */
  lemma ConsCovers(s: string, w: string, ws: seq<string>, shifted: seq<nat>)
    requires |w| <= |s| && |shifted| == |ws|
    requires forall k :: |w| <= k < |s| && !IsSpace(s[k]) ==>
               exists i :: 0 <= i < |shifted| && shifted[i] <= k < shifted[i] + |ws[i]|
    ensures var pos, fs := [0] + shifted, [w] + ws;
            forall k :: 0 <= k < |s| && !IsSpace(s[k]) ==>
              exists i :: 0 <= i < |pos| && pos[i] <= k < pos[i] + |fs[i]|
  {
    var pos, fs := [0] + shifted, [w] + ws;
    forall k | 0 <= k < |s| && !IsSpace(s[k])
      ensures exists i :: 0 <= i < |pos| && pos[i] <= k < pos[i] + |fs[i]|
    {
      if k < |w| {
        assert pos[0] <= k < pos[0] + |fs[0]|;
      } else {
        var i :| 0 <= i < |shifted| && shifted[i] <= k < shifted[i] + |ws[i]|;
        assert pos[i + 1] <= k < pos[i + 1] + |fs[i + 1]|;
      }
    }
  }

  /** A run found in the suffix `s[n..]` is a run of `s`, `n` further right. */
  lemma ShiftField(s: string, n: nat, w: string, q: nat)
    requires n <= |s| && FieldAt(s[n..], w, q)
    requires q == 0 ==> n == 0 || IsSpace(s[n - 1])
    ensures FieldAt(s, w, q + n)
  {
    var t := s[n..];
    assert s[q + n..q + n + |w|] == t[q..q + |w|];
    if q > 0 {
      assert s[q + n - 1] == t[q - 1];
    }
    if q + |w| < |t| {
      assert s[q + n + |w|] == t[q + |w|];
    }
  }

  /** The runs found in the suffix `s[n..]`, `n` further right. */
  lemma ShiftFields(s: string, n: nat, ws: seq<string>, rest: seq<nat>) returns (pos: seq<nat>)
    requires n <= |s| && |rest| == |ws|
    requires forall i :: 0 <= i < |rest| ==> FieldAt(s[n..], ws[i], rest[i])
    requires forall i :: 0 <= i < |rest| && rest[i] == 0 ==> n == 0 || IsSpace(s[n - 1])
    requires forall k :: 0 <= k < |s| - n && !IsSpace(s[n..][k]) ==>
               exists i :: 0 <= i < |rest| && rest[i] <= k < rest[i] + |ws[i]|
    ensures |pos| == |rest| && forall i :: 0 <= i < |rest| ==> pos[i] == rest[i] + n
    ensures forall i :: 0 <= i < |pos| ==> FieldAt(s, ws[i], pos[i])
    ensures forall k :: n <= k < |s| && !IsSpace(s[k]) ==>
              exists i :: 0 <= i < |pos| && pos[i] <= k < pos[i] + |ws[i]|
  {
    pos := seq(|rest|, i requires 0 <= i < |rest| => rest[i] + n);
    forall i | 0 <= i < |rest| ensures FieldAt(s, ws[i], pos[i]) {
      ShiftField(s, n, ws[i], rest[i]);
    }
    forall k | n <= k < |s| && !IsSpace(s[k])
      ensures exists i :: 0 <= i < |pos| && pos[i] <= k < pos[i] + |ws[i]|
    {
      assert s[n..][k - n] == s[k];
      var i :| 0 <= i < |rest| && rest[i] <= k - n < rest[i] + |ws[i]|;
      assert pos[i] <= k < pos[i] + |ws[i]|;
    }
  }

  /** Go's `strings.Split` with a one-character separator. */
  function Split(s: string, sep: char): (parts: seq<string>)
    ensures |parts| >= 1
    ensures forall i :: 0 <= i < |parts| ==> sep !in parts[i]
  {
    if s == [] then [[]]
    else
      var rest := Split(s[1..], sep);
      if s[0] == sep then [[]] + rest else [[s[0]] + rest[0]] + rest[1..]
  }

  /** Go's `strings.Join`. */
  function Join(parts: seq<string>, sep: string): string {
    if |parts| == 0 then []
    else if |parts| == 1 then parts[0]
    else parts[0] + sep + Join(parts[1..], sep)
  }

  /** Splitting undoes joining with a separator that no part contains. */
  lemma {:induction false} SplitJoin(parts: seq<string>, sep: char)
    requires |parts| >= 1
    requires forall i :: 0 <= i < |parts| ==> sep !in parts[i]
    ensures Split(Join(parts, [sep]), sep) == parts
    decreases |parts|, |parts[0]|
  {
    var p := parts[0];
    if |parts| == 1 {
      if p != [] {
        SplitJoin([p[1..]], sep);
        assert Join(parts, [sep]) == p && [p][0] == p;
        assert Join([p[1..]], [sep]) == p[1..];
        assert [p[0]] + p[1..] == p;
      }
    } else if p == [] {
      var tail := parts[1..];
      SplitJoin(tail, sep);
      assert Join(parts, [sep]) == [sep] + Join(tail, [sep]);
      assert [[]] + tail == parts;
    } else {
      var shorter := [p[1..]] + parts[1..];
      SplitJoin(shorter, sep);
      assert Join(shorter, [sep]) == p[1..] + [sep] + Join(parts[1..], [sep]);
      assert Join(parts, [sep]) == [p[0]] + Join(shorter, [sep]);
      var joined := Join(parts, [sep]);
      assert joined[0] == p[0] && joined[1..] == Join(shorter, [sep]);
      assert p[0] != sep by { assert p[0] in p; }
      assert Split(joined, sep) == [[p[0]] + shorter[0]] + shorter[1..];
      assert [p[0]] + p[1..] == p;
    }
  }

  /** Joining the parts of a split with the separator gives the input back. */
  lemma {:induction false} JoinSplit(s: string, sep: char)
    ensures Join(Split(s, sep), [sep]) == s
  {
    if s != [] {
      var rest := Split(s[1..], sep);
      JoinSplit(s[1..], sep);
      if s[0] == sep {
        assert Join([[]] + rest, [sep]) == [sep] + Join(rest, [sep]);
      } else {
        var parts := [[s[0]] + rest[0]] + rest[1..];
        if |rest| == 1 {
          assert Join(parts, [sep]) == [s[0]] + rest[0];
        } else {
          assert Join(rest, [sep]) == rest[0] + [sep] + Join(rest[1..], [sep]);
          assert Join(parts, [sep]) == [s[0]] + rest[0] + [sep] + Join(parts[1..], [sep]);
          assert parts[1..] == rest[1..];
        }
      }
    }
  }

  /** Joining one more part appends the separator and that part. */
  lemma {:induction false} JoinSnoc(parts: seq<string>, last: string, sep: string)
    requires |parts| >= 1
    ensures Join(parts + [last], sep) == Join(parts, sep) + sep + last
  {
    var all := parts + [last];
    assert all[1..] == parts[1..] + [last];
    if |parts| > 1 {
      JoinSnoc(parts[1..], last, sep);
    }
  }

  /** Go's `strings.HasPrefix`. */
  predicate HasPrefix(s: string, prefix: string) {
    |prefix| <= |s| && s[..|prefix|] == prefix
  }

  /** Go's `strings.HasSuffix`. */
  predicate HasSuffix(s: string, suffix: string) {
    |suffix| <= |s| && s[|s| - |suffix|..] == suffix
  }

  /** Go's `strings.TrimPrefix`. */
  function TrimPrefix(s: string, prefix: string): string {
    if HasPrefix(s, prefix) then s[|prefix|..] else s
  }

  /** Go's `strings.Contains`: `sub` occurs at some position of `s`. */
  predicate Contains(s: string, sub: string)
    decreases |s|
  {
    HasPrefix(s, sub) || (s != [] && Contains(s[1..], sub))
  }

  /** `sub` occurs in any string that has it as an infix. */
  lemma {:induction false} ContainsInfix(before: string, sub: string, after: string)
    ensures Contains(before + sub + after, sub)
    decreases |before|
  {
    var s := before + sub + after;
    if before == [] {
      assert s[..|sub|] == sub;
    } else {
      ContainsInfix(before[1..], sub, after);
      assert s[1..] == before[1..] + sub + after;
    }
  }

  /** A string that contains `sub` holds the first character of `sub`. */
  lemma {:induction false} ContainsHasFirst(s: string, sub: string)
    requires sub != [] && Contains(s, sub)
    ensures sub[0] in s
    decreases |s|
  {
    if !HasPrefix(s, sub) {
      ContainsHasFirst(s[1..], sub);
    }
  }

  /** `strings.ToLower` restricted to the ASCII letters. */
  function ToLower(s: string): (r: string)
    ensures |r| == |s|
  {
    if s == [] then [] else [LowerChar(s[0])] + ToLower(s[1..])
  }

  /** Lower-casing works character by character. */
  lemma {:induction false} ToLowerEach(s: string)
    ensures forall i :: 0 <= i < |s| ==> ToLower(s)[i] == LowerChar(s[i])
  {
    if s != [] {
      ToLowerEach(s[1..]);
    }
  }

  /** Lower-casing distributes over concatenation. */
  lemma {:induction false} ToLowerAppend(a: string, b: string)
    ensures ToLower(a + b) == ToLower(a) + ToLower(b)
  {
    if a != [] {
      assert (a + b)[0] == a[0] && (a + b)[1..] == a[1..] + b;
      ToLowerAppend(a[1..], b);
      assert ToLower(a + b) == [LowerChar(a[0])] + ToLower(a[1..] + b);
      assert ToLower(a) == [LowerChar(a[0])] + ToLower(a[1..]);
    } else {
      assert a + b == b;
    }
  }

  function LowerChar(c: char): char {
    if 'A' <= c <= 'Z' then (c as int - 'A' as int + 'a' as int) as char else c
  }

  /** One decimal digit. */
  function Digit(d: nat): (c: char)
    requires d < 10
    ensures '0' <= c <= '9'
  {
    ('0' as int + d) as char
  }

  predicate AllDigits(s: string) {
    forall i :: 0 <= i < |s| ==> '0' <= s[i] <= '9'
  }

  /** `strconv.Itoa` of a byte: its decimal digits without leading zeros. */
  function Decimal(b: byte): (r: string)
    ensures 1 <= |r| <= 3 && AllDigits(r)
    ensures |r| == 1 <==> b < 10
    ensures |r| == 3 <==> b >= 100
  {
    if b < 10 then [Digit(b)] else Decimal(b / 10) + [Digit(b % 10)]
  }

  /** The number a string of decimal digits denotes. */
  function DigitsValue(s: string): (n: nat)
    requires AllDigits(s)
  {
    if s == [] then 0 else 10 * DigitsValue(s[..|s| - 1]) + (s[|s| - 1] as int - '0' as int)
  }

  /** Reading the digits of `Decimal(b)` gives `b` back, and the rendering
      has no leading zero unless it is "0" itself. */
  lemma {:induction false} DecimalValue(b: byte)
    ensures DigitsValue(Decimal(b)) == b
    ensures Decimal(b)[0] == '0' <==> b == 0
  {
    if b >= 10 {
      DecimalValue(b / 10);
      var r := Decimal(b);
      assert r[..|r| - 1] == Decimal(b / 10);
      assert r[0] == Decimal(b / 10)[0];
    }
  }

  /** Distinct bytes render differently. */
  lemma DecimalInjective(a: byte, b: byte)
    requires Decimal(a) == Decimal(b)
    ensures a == b
  {
    DecimalValue(a);
    DecimalValue(b);
  }

  /** The decimal renderings of a byte sequence, one per byte. */
  function Decimals(b: seq<byte>): (r: seq<string>)
    ensures |r| == |b|
  {
    if b == [] then [] else Decimals(b[..|b| - 1]) + [Decimal(b[|b| - 1])]
  }

  /** `fmt.Sprintf("%02x", b)`: two lower-case hexadecimal digits. */
  function Hex2(b: byte): (r: string)
    ensures |r| == 2 && IsHexDigit(r[0]) && IsHexDigit(r[1])
  {
    [HexDigit(b / 16), HexDigit(b % 16)]
  }

  function HexDigit(d: nat): (c: char)
    requires d < 16
    ensures IsHexDigit(c)
  {
    if d < 10 then ('0' as int + d) as char else ('a' as int + d - 10) as char
  }

  predicate IsHexDigit(c: char) {
    '0' <= c <= '9' || 'a' <= c <= 'f'
  }

  /** The value of a lower-case hexadecimal digit: `HexDigit` read back. */
  function HexValue(c: char): (d: nat)
    requires IsHexDigit(c)
    ensures d < 16 && HexDigit(d) == c
  {
    if c <= '9' then c as int - '0' as int else c as int - 'a' as int + 10
  }
}
