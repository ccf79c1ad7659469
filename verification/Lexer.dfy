/**
 The lexical helpers of the statement guard. The reference is a one-pass automaton that looks at one byte
 at a time and merely toggles on every quote byte; the helpers jump over whole tokens instead.
 */
module Lexer {
  import opened GoStrings

  // ---- the reference automaton ----

  /** Dash and Slash remember a byte that may open a comment; Star one that may close a block comment. */
  datatype State = Normal | Dash | Slash | Single | Double | Line | Block | Star

  function Step(st: State, b: char): State {
    match st
    case Normal | Dash | Slash =>
      if st.Dash? && b == '-' then Line
      else if st.Slash? && b == '*' then Block
      else if b == '\'' then Single
      else if b == '"' then Double
      else if b == '-' then Dash
      else if b == '/' then Slash
      else Normal
    case Single => if b == '\'' then Normal else Single
    case Double => if b == '"' then Normal else Double
    case Line => if b == '\n' then Normal else Line
    case Block => if b == '*' then Star else Block
    case Star => if b == '/' then Normal else if b == '*' then Star else Block
  }

  /** Outside literals, quoted identifiers and comments. */
  predicate Outside(st: State) {
    st.Normal? || st.Dash? || st.Slash?
  }

  /** The state in which the automaton, started in st, reads the byte at position i. */
  function At(st: State, s: string, i: nat): State
    requires i <= |s|
  {
    if i == 0 then st else Step(At(st, s, i - 1), s[i - 1])
  }

  function After(st: State, s: string): State {
    At(st, s, |s|)
  }

  /** The byte at k is a ';' that the automaton, started in st, reads outside quotes and comments. */
  predicate SeparatorAt(st: State, s: string, k: nat) {
    k < |s| && s[k] == ';' && Outside(At(st, s, k))
  }

  predicate NoSeparator(st: State, s: string) {
    forall k: nat :: k < |s| ==> !SeparatorAt(st, s, k)
  }

  lemma {:induction false} AtFront(st: State, a: string, b: string, i: nat)
    requires i <= |a|
    ensures At(st, a + b, i) == At(st, a, i)
  {
    if i > 0 {
      AtFront(st, a, b, i - 1);
    }
  }

  lemma {:induction false} AtBack(st: State, a: string, b: string, i: nat)
    requires i <= |b|
    ensures At(st, a + b, |a| + i) == At(After(st, a), b, i)
  {
    if i > 0 {
      AtBack(st, a, b, i - 1);
    } else {
      AtFront(st, a, b, |a|);
    }
  }

  lemma AfterConcat(st: State, a: string, b: string)
    ensures After(st, a + b) == After(After(st, a), b)
  {
    AtBack(st, a, b, |b|);
  }

  lemma AtPrefix(st: State, s: string, k: nat, i: nat)
    requires i <= k <= |s|
    ensures At(st, s[..k], i) == At(st, s, i)
  {
    assert s == s[..k] + s[k..];
    AtFront(st, s[..k], s[k..], i);
  }

  /** The separators of a concatenation are those of its parts. */
  lemma NoSeparatorConcat(st: State, a: string, b: string)
    ensures NoSeparator(st, a + b) <==> NoSeparator(st, a) && NoSeparator(After(st, a), b)
  {
    forall k: nat | k < |a| ensures SeparatorAt(st, a + b, k) == SeparatorAt(st, a, k) {
      AtFront(st, a, b, k);
    }
    forall k: nat | k < |b| ensures SeparatorAt(st, a + b, |a| + k) == SeparatorAt(After(st, a), b, k) {
      AtBack(st, a, b, k);
    }
    if NoSeparator(st, a) && NoSeparator(After(st, a), b) {
      forall k: nat | k < |a + b| ensures !SeparatorAt(st, a + b, k) {
        if k >= |a| {
          AtBack(st, a, b, k - |a|);
          assert !SeparatorAt(After(st, a), b, k - |a|);
        }
      }
    }
  }

  /** One pass of the automaton from position i; the result is the first separator it meets, or -1. */
  function Separator(st: State, s: string, i: nat): (r: int)
    requires i <= |s|
    ensures r == -1 || i <= r < |s|
    decreases |s| - i
  {
    if i == |s| then -1
    else if s[i] == ';' && Outside(st) then i
    else Separator(Step(st, s[i]), s, i + 1)
  }

  /** The pass stops at the least separator, or has met none. */
  lemma {:induction false} SeparatorIsLeast(st: State, s: string, i: nat)
    requires i <= |s|
    requires forall k: nat :: k < i ==> !SeparatorAt(st, s, k)
    ensures var r := Separator(At(st, s, i), s, i);
      if r < 0 then NoSeparator(st, s)
      else SeparatorAt(st, s, r) && forall k: nat :: k < r ==> !SeparatorAt(st, s, k)
    decreases |s| - i
  {
    if i < |s| && !SeparatorAt(st, s, i) {
      SeparatorIsLeast(st, s, i + 1);
    }
  }

  function FirstSeparator(s: string): (r: int)
    ensures -1 <= r < |s|
  {
    Separator(Normal, s, 0)
  }

  /** The text before the first separator holds none; without a first separator there is none at all. */
  lemma LeastSeparator(st: State, s: string)
    ensures var k := Separator(st, s, 0);
      if k < 0 then NoSeparator(st, s) else SeparatorAt(st, s, k) && NoSeparator(st, s[..k])
  {
    SeparatorIsLeast(st, s, 0);
    var k := Separator(st, s, 0);
    if k >= 0 {
      forall j: nat | j < k ensures !SeparatorAt(st, s[..k], j) {
        AtPrefix(st, s, k, j);
        assert !SeparatorAt(st, s, j);
      }
    }
  }

  lemma FirstSeparatorIsLeast(s: string)
    ensures var k := FirstSeparator(s);
      if k < 0 then NoSeparator(Normal, s) else SeparatorAt(Normal, s, k) && NoSeparator(Normal, s[..k])
  {
    LeastSeparator(Normal, s);
  }

  /** FirstSeparator is determined by that property. */
  lemma FirstSeparatorUnique(s: string, k: nat)
    requires SeparatorAt(Normal, s, k) && NoSeparator(Normal, s[..k])
    ensures FirstSeparator(s) == k
  {
    var r := FirstSeparator(s);
    FirstSeparatorIsLeast(s);
    assert r >= 0;
    if r < k {
      AtPrefix(Normal, s, k, r);
      assert SeparatorAt(Normal, s[..k], r);
    }
    if k < r {
      AtPrefix(Normal, s, r, k);
      assert SeparatorAt(Normal, s[..r], k);
    }
  }

  lemma NoFirstSeparator(s: string)
    requires NoSeparator(Normal, s)
    ensures FirstSeparator(s) == -1
  {
    FirstSeparatorIsLeast(s);
  }

  // ---- where tokens end ----

  /** End of a quoted token whose opening quote is behind i: a doubled quote byte stays inside. */
  function QuoteEnd(s: string, i: nat, q: char): (r: nat)
    ensures i <= r && (i <= |s| ==> r <= |s|)
    decreases |s| - i
  {
    if i >= |s| then i
    else if s[i] != q then QuoteEnd(s, i + 1, q)
    else if i + 1 < |s| && s[i + 1] == q then QuoteEnd(s, i + 2, q)
    else i + 1
  }

  /** Toggling on every quote byte of s[i..k], starting inside. */
  function Inside(s: string, i: nat, k: nat, q: char): bool
    requires i <= k <= |s|
  {
    if k == i then true else Inside(s, i, k - 1, q) != (s[k - 1] == q)
  }

  lemma {:induction false} InsideFrom(s: string, i: nat, j: nat, k: nat, q: char)
    requires i <= j <= k <= |s| && Inside(s, i, j, q)
    ensures Inside(s, i, k, q) == Inside(s, j, k, q)
  {
    if j < k {
      InsideFrom(s, i, j, k - 1, q);
    }
  }

  /** Skipping doubled quotes is toggling: a toggling reader is inside all the way, except on the second
      half of a doubled quote, and it leaves exactly at the end; unterminated text is inside to its end. */
  lemma {:induction false} QuoteEndIsToggling(s: string, i: nat, q: char)
    requires i <= |s|
    ensures var r := QuoteEnd(s, i, q);
      && (forall k :: i <= k < r ==> Inside(s, i, k, q) || s[k] == q)
      && (if Inside(s, i, r, q) then r == |s| else i < r && s[r - 1] == q && (r == |s| || s[r] != q))
    decreases |s| - i
  {
    if i < |s| && s[i] != q {
      QuoteEndIsToggling(s, i + 1, q);
      forall k | i + 1 <= k <= |s| ensures Inside(s, i, k, q) == Inside(s, i + 1, k, q) {
        InsideFrom(s, i, i + 1, k, q);
      }
    } else if i + 1 < |s| && s[i + 1] == q {
      QuoteEndIsToggling(s, i + 2, q);
      assert Inside(s, i, i, q);
      assert !Inside(s, i, i + 1, q);
      assert Inside(s, i, i + 2, q);
      forall k | i + 2 <= k <= |s| ensures Inside(s, i, k, q) == Inside(s, i + 2, k, q) {
        InsideFrom(s, i, i + 2, k, q);
      }
    } else if i < |s| {
      assert Inside(s, i, i, q) && !Inside(s, i, i + 1, q);
    }
  }

  function LineEnd(s: string, i: nat): (r: nat)
    ensures i <= r && (i <= |s| ==> r <= |s|)
    decreases |s| - i
  {
    if i < |s| && s[i] != '\n' then LineEnd(s, i + 1) else i
  }

  /** A line comment runs up to the first '\n', which it leaves in place, or to the end of the text. */
  lemma {:induction false} LineEndExact(s: string, i: nat)
    requires i <= |s|
    ensures var r := LineEnd(s, i); i <= r <= |s| && (r == |s| || s[r] == '\n') && '\n' !in s[i..r]
    decreases |s| - i
  {
    if i < |s| && s[i] != '\n' {
      LineEndExact(s, i + 1);
      assert s[i..LineEnd(s, i)] == [s[i]] + s[i + 1..LineEnd(s, i)];
    }
  }

  /** LineEnd is the only position with that property. */
  lemma {:induction false} LineEndUnique(s: string, i: nat, r: nat)
    requires i <= r <= |s| && (r == |s| || s[r] == '\n') && '\n' !in s[i..r]
    ensures LineEnd(s, i) == r
    decreases |s| - i
  {
    if i < r {
      assert s[i] in s[i..r];
      assert forall b :: b in s[i + 1..r] ==> b in s[i..r];
      LineEndUnique(s, i + 1, r);
    }
  }

  predicate ClosesBlock(s: string, k: nat) {
    k + 1 < |s| && s[k] == '*' && s[k + 1] == '/'
  }

  predicate NoCloser(s: string, i: nat, j: nat) {
    forall k: nat :: i <= k < j ==> !ClosesBlock(s, k)
  }

  /** End of a block comment whose opening is behind i. */
  function BlockEnd(s: string, i: nat): (r: nat)
    ensures r <= |s| && (i <= |s| ==> i <= r)
    decreases |s| - i
  {
    if i + 1 >= |s| then |s|
    else if ClosesBlock(s, i) then i + 2
    else BlockEnd(s, i + 1)
  }

  /** A block comment ends just past its first closer; without one it takes the rest of the text. */
  lemma {:induction false} BlockEndExact(s: string, i: nat)
    ensures var r := BlockEnd(s, i);
      || (i + 2 <= r && ClosesBlock(s, r - 2) && NoCloser(s, i, r - 2))
      || (r == |s| && NoCloser(s, i, |s|))
    decreases |s| - i
  {
    if i + 1 < |s| && !ClosesBlock(s, i) {
      BlockEndExact(s, i + 1);
    }
  }

  lemma {:induction false} BlockEndUnique(s: string, i: nat, r: nat)
    requires (i + 2 <= r && ClosesBlock(s, r - 2) && NoCloser(s, i, r - 2)) || (r == |s| && NoCloser(s, i, |s|))
    ensures BlockEnd(s, i) == r
    decreases |s| - i
  {
    if i + 1 < |s| && !ClosesBlock(s, i) {
      BlockEndUnique(s, i + 1, r);
    }
  }

  method SkipQuoted(s: string, i: nat, q: char) returns (r: nat)
    ensures r == QuoteEnd(s, i + 1, q)
  {
    r := i + 1;
    while r < |s|
      invariant QuoteEnd(s, r, q) == QuoteEnd(s, i + 1, q)
    {
      if s[r] == q {
        if r + 1 < |s| && s[r + 1] == q {
          r := r + 2;
          continue;
        }
        return r + 1;
      }
      r := r + 1;
    }
  }

  method SkipLineComment(s: string, i: nat) returns (r: nat)
    ensures r == LineEnd(s, i)
  {
    r := i;
    while r < |s| && s[r] != '\n'
      invariant LineEnd(s, r) == LineEnd(s, i)
    {
      r := r + 1;
    }
  }

  method SkipBlockComment(s: string, i: nat) returns (r: nat)
    ensures r == BlockEnd(s, i + 2)
  {
    r := i + 2;
    while r + 1 < |s|
      invariant BlockEnd(s, r) == BlockEnd(s, i + 2)
    {
      if s[r] == '*' && s[r + 1] == '/' {
        return r + 2;
      }
      r := r + 1;
    }
    r := |s|;
  }

  // ---- jumping over a token agrees with reading it byte by byte ----

  function Quoting(q: char): State
    requires q == '\'' || q == '"'
  {
    if q == '\'' then Single else Double
  }

  lemma {:induction false} SeparatorPastQuote(s: string, i: nat, q: char)
    requires i <= |s| && (q == '\'' || q == '"')
    ensures Separator(Quoting(q), s, i) == Separator(Normal, s, QuoteEnd(s, i, q))
    decreases |s| - i
  {
    if i < |s| {
      if s[i] != q {
        SeparatorPastQuote(s, i + 1, q);
      } else if i + 1 < |s| && s[i + 1] == q {
        SeparatorPastQuote(s, i + 2, q);
      }
    }
  }

  lemma {:induction false} SeparatorPastLine(s: string, i: nat)
    requires i <= |s|
    ensures Separator(Line, s, i) == Separator(Normal, s, LineEnd(s, i))
    decreases |s| - i
  {
    if i < |s| && s[i] != '\n' {
      SeparatorPastLine(s, i + 1);
    }
  }

  lemma {:induction false} SeparatorPastBlock(s: string, i: nat)
    requires i <= |s|
    ensures Separator(Block, s, i) == Separator(Normal, s, BlockEnd(s, i))
    ensures i > 0 && s[i - 1] == '*' ==> Separator(Star, s, i) == Separator(Normal, s, BlockEnd(s, i - 1))
    decreases |s| - i
  {
    if i < |s| {
      SeparatorPastBlock(s, i + 1);
    }
  }

  /** A '-' or '/' that opens no comment is an ordinary byte. */
  lemma SeparatorPastLone(st: State, s: string, i: nat)
    requires Outside(st) && i <= |s|
    requires i < |s| ==> !(st.Dash? && s[i] == '-') && !(st.Slash? && s[i] == '*')
    ensures Separator(st, s, i) == Separator(Normal, s, i)
  {
  }

  method TopLevelSemicolon(s: string) returns (r: int)
    ensures r == FirstSeparator(s)
  {
    var i: nat := 0;
    while i < |s|
      invariant i <= |s|
      invariant Separator(Normal, s, i) == FirstSeparator(s)
    {
      var b := s[i];
      if b == '\'' || b == '"' {
        SeparatorPastQuote(s, i + 1, b);
        i := SkipQuoted(s, i, b);
      } else if b == '-' {
        if i + 1 < |s| && s[i + 1] == '-' {
          SeparatorPastLine(s, i + 2);
          assert LineEnd(s, i) == LineEnd(s, i + 2);
          i := SkipLineComment(s, i);
        } else {
          SeparatorPastLone(Dash, s, i + 1);
          i := i + 1;
        }
      } else if b == '/' {
        if i + 1 < |s| && s[i + 1] == '*' {
          SeparatorPastBlock(s, i + 2);
          i := SkipBlockComment(s, i);
        } else {
          SeparatorPastLone(Slash, s, i + 1);
          i := i + 1;
        }
      } else if b == ';' {
        return i;
      } else {
        i := i + 1;
      }
    }
    return -1;
  }

  // ---- trivia ----

  predicate OpensLine(s: string) {
    |s| >= 2 && s[0] == '-' && s[1] == '-'
  }

  predicate OpensBlock(s: string) {
    |s| >= 2 && s[0] == '/' && s[1] == '*'
  }

  function StripTrivia(s: string): (r: string)
    ensures |r| <= |s|
    decreases |s|
  {
    if s == "" then s
    else if IsWhite(s[0]) then StripTrivia(s[1..])
    else if OpensLine(s) then
      assert LineEnd(s, 0) == LineEnd(s, 1) >= 1;
      StripTrivia(s[LineEnd(s, 0)..])
    else if OpensBlock(s) then StripTrivia(s[BlockEnd(s, 2)..])
    else s
  }

  predicate StartsTrivia(s: string) {
    s != "" && (IsWhite(s[0]) || OpensLine(s) || OpensBlock(s))
  }

  /** Stripping is maximal: what is left is a suffix that starts with neither white space nor a comment. */
  lemma {:induction false} StripTriviaMaximal(s: string)
    ensures var r := StripTrivia(s); r == s[|s| - |r|..] && !StartsTrivia(r) && StripTrivia(r) == r
    decreases |s|
  {
    if s != "" {
      if IsWhite(s[0]) {
        StripTriviaMaximal(s[1..]);
      } else if OpensLine(s) {
        StripTriviaLine(s);
        StripTriviaMaximal(s[LineEnd(s, 0)..]);
      } else if OpensBlock(s) {
        StripTriviaBlock(s);
        StripTriviaMaximal(s[BlockEnd(s, 2)..]);
      }
    }
  }

  lemma StripTriviaLine(s: string)
    requires OpensLine(s)
    ensures 0 < LineEnd(s, 0) <= |s|
    ensures StripTrivia(s) == StripTrivia(s[LineEnd(s, 0)..])
  {
    assert LineEnd(s, 0) == LineEnd(s, 1);
  }

  lemma StripTriviaBlock(s: string)
    requires OpensBlock(s)
    ensures 0 < BlockEnd(s, 2) <= |s|
    ensures StripTrivia(s) == StripTrivia(s[BlockEnd(s, 2)..])
  {
  }

  /** Text that starts with neither white space nor a comment is left alone. */
  lemma StripTriviaStops(s: string)
    requires !StartsTrivia(s)
    ensures StripTrivia(s) == s
  {
  }

  /** Go's strings.TrimLeft with the white-space cutset. */
  method TrimCutset(s: string) returns (r: string)
    ensures r == "" || !IsWhite(r[0])
    ensures StripTrivia(r) == StripTrivia(s) && |r| <= |s|
  {
    r := s;
    while r != "" && IsWhite(r[0])
      invariant StripTrivia(r) == StripTrivia(s) && |r| <= |s|
      decreases |r|
    {
      r := r[1..];
    }
  }

  method StripLeadingTrivia(input: string) returns (s: string)
    ensures s == StripTrivia(input)
  {
    ghost var goal := StripTrivia(input);
    s := input;
    while true
      invariant StripTrivia(s) == goal
      decreases |s|
    {
      s := TrimCutset(s);
      if OpensLine(s) {
        var k := SkipLineComment(s, 0);
        assert k > 0 && StripTrivia(s[k..]) == goal by { StripTriviaLine(s); }
        s := s[k..];
      } else if OpensBlock(s) {
        var k := SkipBlockComment(s, 0);
        assert k > 0 && StripTrivia(s[k..]) == goal by { StripTriviaBlock(s); }
        s := s[k..];
      } else {
        StripTriviaStops(s);
        return;
      }
    }
  }

  // ---- words ----

  predicate IsWordByte(b: char) {
    b == '_' || 'a' <= b <= 'z' || 'A' <= b <= 'Z'
  }

  /** In ASCII codes: the capital and the small letters, and '_'. */
  lemma WordBytes(b: char)
    ensures IsWordByte(b) <==> var c := b as int; 65 <= c <= 90 || 97 <= c <= 122 || c == 95
  {
  }

  /** A non-empty run of word bytes. */
  predicate IsWord(w: string) {
    w != "" && forall i :: 0 <= i < |w| ==> IsWordByte(w[i])
  }

  predicate StartsWord(s: string) {
    s != "" && IsWordByte(s[0])
  }

  function WordLength(s: string): (n: nat)
    ensures n <= |s|
    ensures forall i :: 0 <= i < n ==> IsWordByte(s[i])
    ensures n < |s| ==> !IsWordByte(s[n])
  {
    if StartsWord(s) then 1 + WordLength(s[1..]) else 0
  }

  /** The leading word is the only run of word bytes that no word byte follows. */
  lemma WordLengthUnique(w: string, rest: string)
    requires forall i :: 0 <= i < |w| ==> IsWordByte(w[i])
    requires !StartsWord(rest)
    ensures WordLength(w + rest) == |w|
  {
    assert forall i :: 0 <= i < |w| ==> (w + rest)[i] == w[i];
    assert rest != "" ==> (w + rest)[|w|] == rest[0];
  }

  method LeadingWord(s: string) returns (word: string, rest: string)
    ensures word == s[..WordLength(s)] && rest == s[WordLength(s)..]
  {
    var i: nat := 0;
    while i < |s| && IsWordByte(s[i])
      invariant i <= |s|
      invariant forall k :: 0 <= k < i ==> IsWordByte(s[k])
    {
      i := i + 1;
    }
    WordLengthUnique(s[..i], s[i..]);
    assert s == s[..i] + s[i..];
    return s[..i], s[i..];
  }

  // ---- parenthesis groups ----

  /** Depth of parentheses outside single-quoted literals, and whether the text ends inside one. */
  datatype Nesting = Nesting(depth: int, quoted: bool)

  function NestStep(n: Nesting, b: char): Nesting {
    if b == '\'' then n.(quoted := !n.quoted)
    else if n.quoted then n
    else if b == '(' then n.(depth := n.depth + 1)
    else if b == ')' then n.(depth := n.depth - 1)
    else n
  }

  function Nest(s: string): Nesting {
    if s == "" then Nesting(0, false) else NestStep(Nest(s[..|s| - 1]), s[|s| - 1])
  }

  /** A parenthesis group: it closes at its last byte and not before. */
  ghost predicate IsGroup(g: string) {
    && g != "" && g[0] == '('
    && Nest(g).depth == 0
    && forall k :: 0 < k < |g| ==> Nest(g[..k]).depth != 0
  }

  /** One pass over s from position i; the result is the end of the group, or -1 if it does not close. */
  function GroupEnd(n: Nesting, s: string, i: nat): (r: int)
    requires i <= |s|
    ensures r == -1 || i < r <= |s|
    decreases |s| - i
  {
    if i == |s| then -1
    else
      var m := NestStep(n, s[i]);
      if s[i] == ')' && !n.quoted && m.depth == 0 then i + 1 else GroupEnd(m, s, i + 1)
  }

  lemma {:induction false} GroupEndIsLeast(s: string, i: nat)
    requires 0 < i <= |s| && s[0] == '('
    requires forall k :: 0 < k <= i ==> Nest(s[..k]).depth > 0
    ensures var r := GroupEnd(Nest(s[..i]), s, i);
      if r < 0 then forall k :: 0 < k <= |s| ==> Nest(s[..k]).depth != 0
      else IsGroup(s[..r])
    decreases |s| - i
  {
    if i < |s| {
      assert s[..i + 1][..i] == s[..i];
      if Nest(s[..i + 1]).depth != 0 {
        GroupEndIsLeast(s, i + 1);
      } else {
        var g := s[..i + 1];
        forall k | 0 < k < |g| ensures Nest(g[..k]).depth != 0 {
          assert g[..k] == s[..k];
        }
      }
    }
  }

  /** The group at the start of s is its only balanced prefix of that kind, hence the shortest one; -1 means
      that no prefix is balanced. */
  lemma GroupEndExact(s: string)
    requires s != "" && s[0] == '('
    ensures GroupEnd(Nesting(0, false), s, 0) == -1 <==> forall k :: 0 < k <= |s| ==> Nest(s[..k]).depth != 0
    ensures forall k :: 0 < k <= |s| ==> (IsGroup(s[..k]) <==> GroupEnd(Nesting(0, false), s, 0) == k)
  {
    assert s[..1][..0] == "";
    assert Nest(s[..1]) == Nesting(1, false);
    GroupEndIsLeast(s, 1);
    var r := GroupEnd(Nesting(0, false), s, 0);
    assert r == GroupEnd(Nest(s[..1]), s, 1);
    assert forall j, k :: 0 < j < k <= |s| ==> s[..k][..j] == s[..j];
  }

  function SkipGroup(s: string): (r: string)
    ensures |r| <= |s| && (s != "" ==> |r| < |s|)
  {
    var e := GroupEnd(Nesting(0, false), s, 0);
    if e < 0 then "" else s[e..]
  }

  lemma {:induction false} GroupEndPastQuote(d: int, s: string, i: nat)
    requires i <= |s|
    ensures GroupEnd(Nesting(d, true), s, i) == GroupEnd(Nesting(d, false), s, QuoteEnd(s, i, '\''))
    decreases |s| - i
  {
    if i < |s| {
      if s[i] != '\'' {
        GroupEndPastQuote(d, s, i + 1);
      } else if i + 1 < |s| && s[i + 1] == '\'' {
        assert NestStep(NestStep(Nesting(d, true), '\''), '\'') == Nesting(d, true);
        assert GroupEnd(Nesting(d, true), s, i) == GroupEnd(Nesting(d, false), s, i + 1)
            == GroupEnd(Nesting(d, true), s, i + 2);
        GroupEndPastQuote(d, s, i + 2);
      }
    }
  }

  method SkipParenGroup(s: string) returns (r: string)
    ensures r == SkipGroup(s)
  {
    var depth, i: nat := 0, 0;
    while i < |s|
      invariant i <= |s|
      invariant GroupEnd(Nesting(depth, false), s, i) == GroupEnd(Nesting(0, false), s, 0)
    {
      if s[i] == '\'' {
        GroupEndPastQuote(depth, s, i + 1);
        i := SkipQuoted(s, i, '\'');
      } else if s[i] == '(' {
        depth, i := depth + 1, i + 1;
      } else if s[i] == ')' {
        depth, i := depth - 1, i + 1;
        if depth == 0 {
          return s[i..];
        }
      } else {
        i := i + 1;
      }
    }
    return "";
  }

  // ---- EXPLAIN options ----

  predicate IsOptionWord(w: string) {
    ToUpper(w) == "ANALYZE" || ToUpper(w) == "VERBOSE"
  }

  function StripOptions(s: string): (r: string)
    ensures |r| <= |s|
    decreases |s|
  {
    var t := StripTrivia(s);
    if t != "" && t[0] == '(' then StripOptions(SkipGroup(t))
    else if IsOptionWord(t[..WordLength(t)]) then StripOptions(t[WordLength(t)..])
    else t
  }

  predicate IsSuffix(r: string, s: string) {
    |r| <= |s| && r == s[|s| - |r|..]
  }

  lemma SuffixOfSuffix(s: string, t: string, r: string)
    requires IsSuffix(t, s) && IsSuffix(r, t)
    ensures IsSuffix(r, s)
  {
  }

  predicate StartsOption(s: string) {
    (s != "" && s[0] == '(') || IsOptionWord(s[..WordLength(s)])
  }

  /** One turn of the option loop. */
  lemma OptionTurn(s: string) returns (u: string)
    requires StartsOption(StripTrivia(s))
    ensures IsSuffix(u, s) && |u| < |s| && StripOptions(s) == StripOptions(u)
  {
    var t := StripTrivia(s);
    StripTriviaMaximal(s);
    if t != "" && t[0] == '(' {
      u := SkipGroup(t);
    } else {
      u := t[WordLength(t)..];
    }
    SuffixOfSuffix(s, t, u);
  }

  /** What is left after the options is a suffix that starts with none, so stripping again changes nothing. */
  lemma {:induction false} StripOptionsMaximal(s: string)
    ensures var r := StripOptions(s);
      IsSuffix(r, s) && StripOptions(r) == r && !StartsTrivia(r) && !StartsOption(r)
    decreases |s|
  {
    StripTriviaMaximal(s);
    if StartsOption(StripTrivia(s)) {
      var u := OptionTurn(s);
      StripOptionsMaximal(u);
      SuffixOfSuffix(s, u, StripOptions(s));
    }
  }

  method StripExplainOptions(input: string) returns (s: string)
    ensures s == StripOptions(input)
  {
    s := input;
    while true
      invariant StripOptions(s) == StripOptions(input)
      decreases |s|
    {
      var before := s;
      s := StripLeadingTrivia(s);
      assert StripOptions(before) == StripOptions(input);
      if s != "" && s[0] == '(' {
        s := SkipParenGroup(s);
        continue;
      }
      var word, after := LeadingWord(s);
      if IsOptionWord(word) {
        s := after;
        continue;
      }
      return;
    }
  }
}
