/**
 Go strings as the statement guard sees them: sequences of bytes, each written as the character with that
 code. No theorem below needs the codes to stay under 256.
 */
module GoStrings {

  datatype Option<+T> = None | Some(value: T)

  /** The bytes of the cutset " \t\r\n\f\v", which are also the one-byte white-space runes. */
  predicate IsWhite(b: char) {
    b == ' ' || '\t' <= b <= '\r'
  }

  /** The two-byte white-space runes: U+0085 and U+00A0. */
  predicate IsWhite2(b0: char, b1: char) {
    b0 == '\U{C2}' && (b1 == '\U{85}' || b1 == '\U{A0}')
  }

  /** The three-byte white-space runes: U+1680, U+2000 to U+200A, U+2028, U+2029, U+202F, U+205F and U+3000. */
  predicate IsWhite3(b0: char, b1: char, b2: char) {
    || (b0 == '\U{E1}' && b1 == '\U{9A}' && b2 == '\U{80}')
    || (b0 == '\U{E2}' && b1 == '\U{80}'
        && ('\U{80}' <= b2 <= '\U{8A}' || b2 == '\U{A8}' || b2 == '\U{A9}' || b2 == '\U{AF}'))
    || (b0 == '\U{E2}' && b1 == '\U{81}' && b2 == '\U{9F}')
    || (b0 == '\U{E3}' && b1 == '\U{80}' && b2 == '\U{80}')
  }

  /** Length of the white-space rune that s starts with, 0 if it starts with none. */
  function LeadingSpace(s: string): (n: nat)
    ensures n <= |s|
  {
    if |s| >= 1 && IsWhite(s[0]) then 1
    else if |s| >= 2 && IsWhite2(s[0], s[1]) then 2
    else if |s| >= 3 && IsWhite3(s[0], s[1], s[2]) then 3
    else 0
  }

  /** Length of the white-space rune that s ends with, 0 if it ends with none. */
  function TrailingSpace(s: string): (n: nat)
    ensures n <= |s|
  {
    var k := |s|;
    if k >= 1 && IsWhite(s[k - 1]) then 1
    else if k >= 2 && IsWhite2(s[k - 2], s[k - 1]) then 2
    else if k >= 3 && IsWhite3(s[k - 3], s[k - 2], s[k - 1]) then 3
    else 0
  }

  /** Exactly one white-space rune. */
  predicate IsSpaceRune(r: string) {
    r != "" && LeadingSpace(r) == |r|
  }

  /** The code points that Go's unicode.IsSpace knows. */
  predicate UnicodeSpace(c: int) {
    || 0x09 <= c <= 0x0D || c == 0x20 || c == 0x85 || c == 0xA0 || c == 0x1680
    || 0x2000 <= c <= 0x200A || c == 0x2028 || c == 0x2029 || c == 0x202F || c == 0x205F || c == 0x3000
  }

  /** The UTF-8 form of a code point below 0x10000. */
  function Utf8(c: int): string
    requires 0 <= c < 0x1_0000
  {
    if c < 0x80 then [c as char]
    else if c < 0x800 then [(0xC0 + c / 64) as char, (0x80 + c % 64) as char]
    else [(0xE0 + c / 4096) as char, (0x80 + c / 64 % 64) as char, (0x80 + c % 64) as char]
  }

  lemma SpaceRuneCode(r: string) returns (c: int)
    requires IsSpaceRune(r)
    ensures 0 <= c < 0x1_0000 && UnicodeSpace(c) && r == Utf8(c)
  {
    if |r| == 1 {
      c := r[0] as int;
    } else if |r| == 2 {
      c := r[1] as int;
    } else {
      c := (r[0] as int - 0xE0) * 4096 + (r[1] as int - 0x80) * 64 + (r[2] as int - 0x80);
      assert c / 4096 == r[0] as int - 0xE0 && c % 64 == r[2] as int - 0x80;
      assert c / 64 == (r[0] as int - 0xE0) * 64 + (r[1] as int - 0x80);
    }
  }

  lemma SpaceRuneOf(c: int)
    requires 0 <= c < 0x1_0000 && UnicodeSpace(c)
    ensures IsSpaceRune(Utf8(c))
  {
  }

  /** The white-space runes are the UTF-8 forms of those code points. */
  lemma SpaceRuneExact(r: string)
    ensures IsSpaceRune(r) <==> exists c :: 0 <= c < 0x1_0000 && UnicodeSpace(c) && r == Utf8(c)
  {
    if IsSpaceRune(r) {
      var c := SpaceRuneCode(r);
    }
    forall c | 0 <= c < 0x1_0000 && UnicodeSpace(c) && r == Utf8(c) ensures IsSpaceRune(r) {
      SpaceRuneOf(c);
    }
  }

  function TrimLeft(s: string): string
  {
    var n := LeadingSpace(s);
    if n == 0 then s else TrimLeft(s[n..])
  }

  function TrimRight(s: string): string
  {
    var n := TrailingSpace(s);
    if n == 0 then s else TrimRight(s[..|s| - n])
  }

  /** Go's strings.TrimSpace. */
  function TrimSpace(s: string): string {
    TrimRight(TrimLeft(s))
  }

  /** A run of white-space runes. */
  predicate Spaces(s: string) {
    s == "" || (LeadingSpace(s) > 0 && Spaces(s[LeadingSpace(s)..]))
  }

  lemma SpacesStep(r: string, s: string)
    requires IsSpaceRune(r)
    ensures LeadingSpace(r + s) == |r|
    ensures (r + s)[|r|..] == s
  {
  }

  lemma SpacesLast(s: string, r: string)
    requires IsSpaceRune(r)
    ensures TrailingSpace(s + r) == |r|
    ensures (s + r)[..|s|] == s
  {
  }

  lemma SpacesCons(r: string, s: string)
    requires IsSpaceRune(r) && Spaces(s)
    ensures Spaces(r + s)
  {
    SpacesStep(r, s);
  }

  lemma LeadingRune(s: string)
    requires LeadingSpace(s) > 0
    ensures IsSpaceRune(s[..LeadingSpace(s)])
  {
  }

  lemma TrailingRune(s: string)
    requires TrailingSpace(s) > 0
    ensures IsSpaceRune(s[|s| - TrailingSpace(s)..])
  {
  }

  lemma {:induction false} SpacesSnoc(s: string, r: string)
    requires Spaces(s) && IsSpaceRune(r)
    ensures Spaces(s + r)
  {
    if s == "" {
      SpacesStep(r, "");
      assert r + "" == r && s + r == r;
    } else {
      var n := LeadingSpace(s);
      SpacesStep(s[..n], s[n..] + r);
      assert s + r == s[..n] + (s[n..] + r);
      SpacesSnoc(s[n..], r);
    }
  }

  lemma {:induction false} SpacesConcat(a: string, b: string)
    requires Spaces(a) && Spaces(b)
    ensures Spaces(a + b)
  {
    if a == "" {
      assert a + b == b;
    } else {
      var n := LeadingSpace(a);
      SpacesStep(a[..n], a[n..] + b);
      assert a + b == a[..n] + (a[n..] + b);
      SpacesConcat(a[n..], b);
    }
  }

  lemma Regroup<T>(a: seq<T>, b: seq<T>, c: seq<T>)
    ensures a + (b + c) == a + b + c
  {
  }

  lemma RegroupFour<T>(a: seq<T>, b: seq<T>, c: seq<T>, d: seq<T>)
    ensures a + (b + (c + d)) == a + b + c + d
  {
  }

  lemma SplitAt(a: string, b: string, k: nat)
    requires k < |b|
    ensures (a + b)[..|a| + k] == a + b[..k] && (a + b)[|a| + k + 1..] == b[k + 1..]
  {
  }

  lemma Cut(s: string, n: nat)
    requires n <= |s|
    ensures s == s[..n] + s[n..]
  {
  }

  lemma Chain(s: string, t: string, r: string, u: string, more: string)
    requires s == t + r && t == u + more
    ensures s == u + (more + r)
  {
  }

  lemma {:induction false} TrimLeftStops(s: string)
    ensures LeadingSpace(TrimLeft(s)) == 0
  {
    var n := LeadingSpace(s);
    if n > 0 {
      TrimLeftStops(s[n..]);
    }
  }

  /** What TrimLeft removes is a run of white space. */
  lemma {:induction false} TrimLeftSplits(s: string) returns (lead: string)
    ensures Spaces(lead) && s == lead + TrimLeft(s)
  {
    var n := LeadingSpace(s);
    if n == 0 {
      lead := "";
    } else {
      var r, t := s[..n], s[n..];
      var more := TrimLeftSplits(t);
      LeadingRune(s);
      SpacesCons(r, more);
      Cut(s, n);
      Regroup(r, more, TrimLeft(t));
      lead := r + more;
    }
  }

  lemma {:induction false} TrimLeftAbsorbs(lead: string, s: string)
    requires Spaces(lead)
    ensures TrimLeft(lead + s) == TrimLeft(s)
  {
    if lead == "" {
      assert lead + s == s;
    } else {
      var n := LeadingSpace(lead);
      SpacesStep(lead[..n], lead[n..] + s);
      assert lead + s == lead[..n] + (lead[n..] + s);
      TrimLeftAbsorbs(lead[n..], s);
    }
  }

  /** What TrimRight removes is a run of white space. */
  lemma {:induction false} TrimRightSplits(s: string) returns (trail: string)
    ensures Spaces(trail) && s == TrimRight(s) + trail
  {
    var n := TrailingSpace(s);
    if n == 0 {
      trail := "";
    } else {
      var t, r := s[..|s| - n], s[|s| - n..];
      var more := TrimRightSplits(t);
      TrailingRune(s);
      SpacesSnoc(more, r);
      Chain(s, t, r, TrimRight(t), more);
      trail := more + r;
    }
  }

  /** The last rune of a run of white space, split off. */
  lemma {:induction false} SpacesUnsnoc(s: string) returns (front: string, r: string)
    requires Spaces(s) && s != ""
    ensures Spaces(front) && IsSpaceRune(r) && s == front + r
  {
    var k := LeadingSpace(s);
    LeadingRune(s);
    if k == |s| {
      front, r := "", s;
      assert s[..k] == s;
    } else {
      var more;
      more, r := SpacesUnsnoc(s[k..]);
      SpacesCons(s[..k], more);
      front := s[..k] + more;
      Cut(s, k);
      Regroup(s[..k], more, r);
    }
  }

  lemma {:induction false} TrimRightAbsorbs(s: string, trail: string)
    requires Spaces(trail)
    ensures TrimRight(s + trail) == TrimRight(s)
    decreases |trail|
  {
    if trail == "" {
      assert s + trail == s;
    } else {
      var front, r := SpacesUnsnoc(trail);
      Regroup(s, front, r);
      SpacesLast(s + front, r);
      TrimRightAbsorbs(s, front);
    }
  }

  /** A byte that occurs in no white-space rune stops trimming. */
  predicate Solid(b: char) {
    '!' <= b <= '~'
  }

  lemma {:induction false} TrimRightKeeps(a: string, rest: string)
    requires a != "" && Solid(a[|a| - 1])
    ensures TrimRight(a + rest) == a + TrimRight(rest)
    decreases |rest|
  {
    var n := TrailingSpace(rest);
    assert TrailingSpace(a + rest) == n;
    if n > 0 {
      assert (a + rest)[..|a + rest| - n] == a + rest[..|rest| - n];
      TrimRightKeeps(a, rest[..|rest| - n]);
    }
  }

  /** Go's strings.ToUpper on ASCII letters. */
  function UpperByte(b: char): char {
    if 'a' <= b <= 'z' then (b as int - 32) as char else b
  }

  function ToUpper(s: string): (r: string)
    ensures |r| == |s|
    ensures forall i :: 0 <= i < |s| ==> r[i] == UpperByte(s[i])
  {
    seq(|s|, i requires 0 <= i < |s| => UpperByte(s[i]))
  }
}
