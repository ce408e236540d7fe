/** String operations the JavaScript sources use: whitespace as `\s` and `trim` see it,
    lower-casing, `includes`, `split`/`join` on one character, and `String(n)` for integers. */
module Text {
  import opened Wrappers

  /** The characters JavaScript counts as white space or line terminators: what `\s` matches
      in a regular expression and what `String.prototype.trim` removes. */
  predicate IsSpace(c: char) {
    c == '\t' || c == '\n' || c == '\U{000B}' || c == '\U{000C}' || c == '\r' || c == ' ' ||
    c == '\U{00A0}' || c == '\U{1680}' || ('\U{2000}' <= c <= '\U{200A}') ||
    c == '\U{2028}' || c == '\U{2029}' || c == '\U{202F}' || c == '\U{205F}' ||
    c == '\U{3000}' || c == '\U{FEFF}'
  }

  predicate IsDigit(c: char) {
    '0' <= c <= '9'
  }

  /** Lower-case of one character; only the ASCII letters are folded. */
  function LowerChar(c: char): char {
    if 'A' <= c <= 'Z' then (c as int + 32) as char else c
  }

  /** `s.toLowerCase()`, folding the ASCII letters. */
  function Lower(s: string): (r: string)
    ensures |r| == |s|
    ensures forall i :: 0 <= i < |s| ==> r[i] == LowerChar(s[i])
  {
    if s == [] then [] else [LowerChar(s[0])] + Lower(s[1..])
  }

  lemma {:induction false} LowerAppend(a: string, b: string)
    ensures Lower(a + b) == Lower(a) + Lower(b)
  {
    var ab, la, lb := a + b, Lower(a), Lower(b);
    var l := Lower(ab);
    assert |l| == |la + lb|;
    forall i | 0 <= i < |ab| ensures l[i] == (la + lb)[i] {
      if i < |a| {
        assert ab[i] == a[i];
        assert (la + lb)[i] == la[i] == LowerChar(a[i]);
      } else {
        assert ab[i] == b[i - |a|];
        assert (la + lb)[i] == lb[i - |a|] == LowerChar(b[i - |a|]);
      }
    }
  }

  predicate StartsWith(s: string, prefix: string) {
    |prefix| <= |s| && s[..|prefix|] == prefix
  }

  /** `s.includes(sub)`: `sub` occurs in `s` at some position. */
  predicate Contains(s: string, sub: string)
    decreases |s|
  {
    StartsWith(s, sub) || (|s| > 0 && Contains(s[1..], sub))
  }

  lemma ContainsEmpty(s: string)
    ensures Contains(s, "")
  {
  }

  /** A string contains each of its infixes. */
  lemma {:induction false} ContainsMiddle(a: string, b: string, c: string)
    ensures Contains(a + b + c, b)
    decreases |a|
  {
    if a == [] {
      assert (a + b + c)[..|b|] == b;
    } else {
      ContainsMiddle(a[1..], b, c);
      assert (a + b + c)[1..] == a[1..] + b + c;
    }
  }

  function TrimStart(s: string): (r: string)
    ensures |r| <= |s| && r == s[|s| - |r|..]
    ensures r == [] || !IsSpace(r[0])
  {
    if s != [] && IsSpace(s[0]) then TrimStart(s[1..]) else s
  }

  function TrimEnd(s: string): (r: string)
    ensures |r| <= |s| && r == s[..|r|]
    ensures r == [] || !IsSpace(r[|r| - 1])
  {
    if s != [] && IsSpace(s[|s| - 1]) then TrimEnd(s[..|s| - 1]) else s
  }

  /** `s.trim()`: the string without its leading and trailing white space. */
  function Trim(s: string): (r: string)
    ensures r == [] || (!IsSpace(r[0]) && !IsSpace(r[|r| - 1]))
  {
    TrimEnd(TrimStart(s))
  }

  /** The trimmed string is part of the string. */
  lemma TrimContained(s: string)
    ensures Contains(s, Trim(s))
  {
    var t := TrimStart(s);
    var b := TrimEnd(t);
    var n := |s| - |t|;
    assert s[n..] == t && t[..|b|] == b;
    assert s[n..n + |b|] == b;
    ContainsAt(s, n, b);
  }

  /** A slice of a string is contained in it. */
  lemma ContainsAt(s: string, n: nat, b: string)
    requires n + |b| <= |s| && s[n..n + |b|] == b
    ensures Contains(s, b)
  {
    var a, c := s[..n], s[n + |b|..];
    assert s == a + b + c;
    ContainsMiddle(a, b, c);
  }

  /** A string made of white space only trims to the empty string, and only such a string does. */
  lemma {:induction false} TrimEmpty(s: string)
    ensures Trim(s) == "" <==> forall i :: 0 <= i < |s| ==> IsSpace(s[i])
  {
    TrimStartEmpty(s);
    var t := TrimStart(s);
    if t != [] {
      assert !IsSpace(t[0]);
      assert TrimEnd(t) != [] by {
        TrimEndKeepsHead(t);
      }
    }
  }

  lemma {:induction false} TrimStartEmpty(s: string)
    ensures TrimStart(s) == "" <==> forall i :: 0 <= i < |s| ==> IsSpace(s[i])
  {
    if s != [] && IsSpace(s[0]) {
      TrimStartEmpty(s[1..]);
      assert forall i :: 1 <= i < |s| ==> s[i] == s[1..][i - 1];
    }
  }

  lemma {:induction false} TrimEndKeepsHead(t: string)
    requires t != [] && !IsSpace(t[0])
    ensures TrimEnd(t) != []
    decreases |t|
  {
    if IsSpace(t[|t| - 1]) {
      assert |t| > 1;
      TrimEndKeepsHead(t[..|t| - 1]);
    }
  }

  /** First position of `c` in `s`. */
  function IndexOf(s: string, c: char): (r: Option<nat>)
    ensures r.Some? ==> r.value < |s| && s[r.value] == c && c !in s[..r.value]
    ensures r.None? <==> c !in s
  {
    if s == [] then None
    else if s[0] == c then Some(0)
    else match IndexOf(s[1..], c)
      case None => None
      case Some(k) => assert s[..k + 1] == [s[0]] + s[1..][..k]; Some(k + 1)
  }

  /** `s.split(c)` for a one-character separator: the pieces between the occurrences of `c`. */
  function Split(s: string, c: char): (parts: seq<string>)
    ensures |parts| >= 1
    decreases |s|
  {
    match IndexOf(s, c)
    case None => [s]
    case Some(i) => [s[..i]] + Split(s[i + 1..], c)
  }

  /** No piece of a split contains the separator; the first piece is the text before its
      first occurrence, or the whole string when it does not occur. */
  lemma {:induction false} SplitPieces(s: string, c: char)
    ensures forall i :: 0 <= i < |Split(s, c)| ==> c !in Split(s, c)[i]
    ensures IndexOf(s, c).None? ==> Split(s, c) == [s]
    ensures IndexOf(s, c).Some? ==> Split(s, c)[0] == s[..IndexOf(s, c).value]
    decreases |s|
  {
    var k := IndexOf(s, c);
    if k.Some? {
      var rest := s[k.value + 1..];
      SplitPieces(rest, c);
      assert Split(s, c) == [s[..k.value]] + Split(rest, c);
    }
  }

  /** `parts.join(sep)`. */
  function Join(parts: seq<string>, sep: string): string {
    if |parts| == 0 then ""
    else if |parts| == 1 then parts[0]
    else parts[0] + sep + Join(parts[1..], sep)
  }

  /** Splitting on a character and joining with it again gives back the original string. */
  lemma {:induction false} JoinSplit(s: string, c: char)
    ensures Join(Split(s, c), [c]) == s
    decreases |s|
  {
    var k := IndexOf(s, c);
    if k.Some? {
      var i := k.value;
      var rest := s[i + 1..];
      var tail := Split(rest, c);
      assert Split(s, c) == [s[..i]] + tail;
      JoinSplit(rest, c);
      JoinCons(s[..i], tail, [c]);
      assert s[..i] + [c] + rest == s by {
        assert s[i..] == [s[i]] + rest;
        assert s == s[..i] + s[i..];
      }
    }
  }

  lemma JoinCons(a: string, parts: seq<string>, sep: string)
    requires |parts| >= 1
    ensures Join([a] + parts, sep) == a + sep + Join(parts, sep)
  {
    assert ([a] + parts)[1..] == parts;
  }

  function DigitChar(d: nat): (c: char)
    requires d < 10
    ensures IsDigit(c)
  {
    ('0' as int + d) as char
  }

  function NatToString(n: nat): (r: string)
    ensures |r| > 0
    ensures forall i :: 0 <= i < |r| ==> IsDigit(r[i])
  {
    if n < 10 then [DigitChar(n)] else NatToString(n / 10) + [DigitChar(n % 10)]
  }

  /** `String(n)` for an integer `n`: its decimal digits, after a minus sign when negative. */
  function IntToString(n: int): (r: string)
    ensures |r| > 0
    ensures forall i :: 0 <= i < |r| ==> IsDigit(r[i]) || r[i] == '-'
  {
    if n < 0 then "-" + NatToString(-n) else NatToString(n)
  }

  /** `x || ""` for a value that is a string or null. */
  function OrEmpty(x: Option<string>): string {
    x.GetOr("")
  }
}
