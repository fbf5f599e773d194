/** Printing and parsing of net and node numbers (addr.c). */
module Addr {
  import opened Ipx
  import opened Options

  const NUL := 0 as char

  predicate IsXDigit(c: char) {
    '0' <= c <= '9' || 'a' <= c <= 'f' || 'A' <= c <= 'F'
  }

  function DigitValue(c: char): (v: nat)
    requires IsXDigit(c)
    ensures v < 16
  {
    if c <= '9' then c as int - '0' as int
    else if c <= 'F' then c as int - 'A' as int + 10
    else c as int - 'a' as int + 10
  }

  function UpperDigit(v: nat): (c: char)
    requires v < 16
    ensures IsXDigit(c) && DigitValue(c) == v
  {
    if v < 10 then ('0' as int + v) as char else ('A' as int + v - 10) as char
  }

  /** A token the parser accepts: one or two hexadecimal digits. */
  predicate IsToken(t: string) {
    (|t| == 1 || |t| == 2) && forall i :: 0 <= i < |t| ==> IsXDigit(t[i])
  }

  function TokenValue(t: string): Byte
    requires IsToken(t)
  {
    if |t| == 1 then DigitValue(t[0]) else 16 * DigitValue(t[0]) + DigitValue(t[1])
  }

  function Colons(n: nat): (s: string)
    ensures |s| == n && forall i :: 0 <= i < n ==> s[i] == ':'
  {
    seq(n, _ => ':')
  }

  /** Leading colons, as strspn(src, ":") counts them. */
  function CountColons(s: string): (n: nat)
    ensures n <= |s| && (forall i :: 0 <= i < n ==> s[i] == ':') && (n < |s| ==> s[n] != ':')
  {
    if s == [] || s[0] != ':' then 0 else 1 + CountColons(s[1..])
  }

  /** The digits the parser takes from the front of what is left, or zero if it fails there;
      `last` is its choice of terminator. */
  function TokenLength(s: string, last: bool): (n: nat)
    ensures n <= 2 && n <= |s| && (n > 0 ==> IsToken(s[..n]))
  {
    if s == [] || !IsXDigit(s[0]) then 0
    else if Ends(s, 1, last) then 1
    else if |s| > 1 && IsXDigit(s[1]) && Ends(s, 2, last) then 2
    else 0
  }

  predicate Ends(s: string, n: nat, last: bool) {
    if last then n == |s| else n < |s| && s[n] == ':'
  }

  /** strspn(src, ":") past the colons in front. */
  function Skip(s: string): (r: string)
    ensures r == s[CountColons(s)..]
  {
    s[CountColons(s)..]
  }

  /** _addr_from_string on the characters before the NUL. */
  function Parse(s: string, size: nat): Option<Bytes>
    decreases size
  {
    if size == 0 then Some([])
    else
      var n := TokenLength(s, size == 1);
      if n == 0 then None
      else
        Prepend([TokenValue(s[..n])], Parse(Skip(s[n..]), size - 1))
  }

  function Prepend(bs: Bytes, r: Option<Bytes>): Option<Bytes> {
    match r case None => None case Some(more) => Some(bs + more)
  }

  /** A NUL-terminated string. */
  predicate CString(s: string) {
    s != [] && s[|s| - 1] == NUL && forall i :: 0 <= i < |s| - 1 ==> s[i] != NUL
  }

  /** The parser's step, and its end. */
  lemma ParseStep(s: string, size: nat)
    ensures size == 0 ==> Parse(s, size) == Some([])
    ensures size > 0 && TokenLength(s, size == 1) == 0 ==> Parse(s, size) == None
    ensures size > 0 && TokenLength(s, size == 1) > 0 ==>
              Parse(s, size) == Prepend([TokenValue(s[..TokenLength(s, size == 1)])],
                                        Parse(Skip(s[TokenLength(s, size == 1)..]), size - 1))
  {}

  /** One more token parsed, or none. */
  lemma ParsedOneMore(text: string, size: nat, before: Bytes, left: string, m: nat)
    requires m > 0 && Parse(text, size) == Prepend(before, Parse(left, m))
    ensures var n := TokenLength(left, m == 1);
            Parse(text, size) == if n == 0 then None
                                 else Prepend(before + [TokenValue(left[..n])], Parse(Skip(left[n..]), m - 1))
  {
    ParseStep(left, m);
    var n := TokenLength(left, m == 1);
    hide TokenLength, TokenValue, Parse, Skip;
    if n > 0 {
      var b, r := TokenValue(left[..n]), Parse(Skip(left[n..]), m - 1);
      if r.Some? { assert before + ([b] + r.value) == before + [b] + r.value; }
    }
  }

  /** The parser's test for a token at position p: how many digits it has, or 0. */
  method TakeToken(src: string, p: nat, last: bool) returns (digits: nat)
    requires CString(src) && p < |src|
    ensures p + digits < |src| && digits == TokenLength(src[p..|src| - 1], last)
  {
    var term := if last then NUL else ':';
    if IsXDigit(src[p]) && (src[p + 1] == term || (IsXDigit(src[p + 1]) && src[p + 2] == term)) {
      return if src[p + 1] == term then 1 else 2;
    }
    return 0;
  }

  /** _addr_from_string: every character it looks at is at or before the NUL. */
  method FromString(dest: array<Byte>, at: nat, src: string, size: nat) returns (ok: bool)
    requires CString(src) && dest.Length >= at + size && size > 0
    modifies dest
    ensures ok <==> Parse(src[..|src| - 1], size).Some?
    ensures ok ==> dest[at..at + size] == Parse(src[..|src| - 1], size).value
    ensures dest[..at] == old(dest[..at]) && dest[at + size..] == old(dest[at + size..])
  {
    hide TokenLength, TokenValue, Parse, Skip, IsXDigit, IsToken, Prepend, CString, CountColons;
    HasNul(src);
    ghost var text, end := src[..|src| - 1], |src| - 1;
    ghost var done: Bytes, left := [], text;
    var p := 0;
    PrependNothing(done, Parse(text, size));
    for i := 0 to size
      invariant 0 <= p <= end && left == src[p..end]
      invariant |done| == i && forall j :: 0 <= j < i ==> dest[at + j] == done[j]
      invariant forall j :: 0 <= j < dest.Length && !(at <= j < at + size) ==> dest[j] == old(dest[j])
      invariant Parse(text, size) == Prepend(done, Parse(left, size - i))
    {
      ParsedOneMore(text, size, done, left, size - i);
      var digits := TakeToken(src, p, i + 1 == size);
      if digits == 0 { return false; }
      TokenIsSlice(src, p, digits, end);
      done, left := done + [TokenValue(left[..digits])], Skip(left[digits..]);
      dest[at + i] := TokenValue(src[p..p + digits]);
      p := p + digits;
      p := p + CountColons(src[p..|src| - 1]);
    }
    ParseStep(left, 0);
    PrependToNone(done, []);
    assert done + [] == done == dest[at..at + size];
    return true;
  }

  lemma HasNul(src: string)
    requires CString(src)
    ensures |src| > 0
  {}

  lemma TokenIsSlice(src: string, p: nat, digits: nat, end: nat)
    requires p + digits <= end <= |src|
    ensures src[p..end][..digits] == src[p..p + digits] && src[p..end][digits..] == src[p + digits..end]
  {}

  lemma PrependNothing(e: Bytes, r: Option<Bytes>)
    requires e == []
    ensures Prepend(e, r) == r
  {
    if r.Some? { assert e + r.value == r.value; }
  }

  lemma PrependToNone(bs: Bytes, more: Bytes)
    ensures Prepend(bs, None) == None && Prepend(bs, Some(more)) == Some(bs + more)
  {}

  /** addr48_from_string: of the eight bytes of an addr48_t it writes only the last six. */
  method Addr48FromString(dest: array<Byte>, src: string) returns (ok: bool)
    requires CString(src) && dest.Length == 8
    modifies dest
    ensures ok <==> Parse(src[..|src| - 1], 6).Some?
    ensures ok ==> dest[..] == old(dest[..2]) + Parse(src[..|src| - 1], 6).value
    ensures dest[..2] == old(dest[..2])
  {
    hide Parse;
    ok := FromString(dest, 2, src, 6);
    assert dest[..] == dest[..2] + dest[2..8];
  }

  /** addr48_out on the bytes of an addr48_t. */
  function Addr48Out(a: Bytes): Bytes
    requires |a| == 8
  {
    a[2..8]
  }

  // ----- printing -----

  /** %02X */
  function PrintByte(b: Byte): (s: string)
    ensures |s| == 2 && IsToken(s) && TokenValue(s) == b
  {
    [UpperDigit(b / 16), UpperDigit(b % 16)]
  }

  /** addr32_string and addr48_string: bytes in upper case, one colon between two. */
  function Print(bs: Bytes): string {
    if bs == [] then [] else if |bs| == 1 then PrintByte(bs[0]) else PrintByte(bs[0]) + ":" + Print(bs[1..])
  }

  // ----- the language of the parser -----

  /** Tokens with one or more colons between them: gaps[i] colons follow token i. */
  function Joined(tokens: seq<string>, gaps: seq<nat>): string
    requires |tokens| == |gaps| + 1
  {
    if gaps == [] then tokens[0] else tokens[0] + Colons(gaps[0]) + Joined(tokens[1..], gaps[1..])
  }

  ghost predicate Separated(tokens: seq<string>, gaps: seq<nat>) {
    && |tokens| == |gaps| + 1
    && (forall i :: 0 <= i < |tokens| ==> IsToken(tokens[i]))
    && (forall i :: 0 <= i < |gaps| ==> gaps[i] > 0)
  }

  function Values(tokens: seq<string>): (bs: Bytes)
    requires forall i :: 0 <= i < |tokens| ==> IsToken(tokens[i])
    ensures |bs| == |tokens|
  {
    seq(|tokens|, i requires 0 <= i < |tokens| => TokenValue(tokens[i]))
  }

  lemma CountColonsExact(n: nat, s: string)
    requires s != [] && s[0] != ':'
    ensures CountColons(Colons(n) + s) == n
  {
    var t := Colons(n) + s;
    assert t[n] == s[0] && forall i :: 0 <= i < n ==> t[i] == ':';
  }

  lemma TokenAtFront(t: string, after: string, last: bool)
    requires IsToken(t) && if last then after == [] else after != [] && after[0] == ':'
    ensures TokenLength(t + after, last) == |t| && (t + after)[..|t|] == t && (t + after)[|t|..] == after
  {}

  lemma SkipGap(n: nat, rest: string)
    requires rest != [] && rest[0] != ':'
    ensures Skip(Colons(n) + rest) == rest
  {
    CountColonsExact(n, rest);
  }

  /** Every token list, however many colons separate its tokens, parses to its values. */
  lemma {:induction false} JoinedParses(tokens: seq<string>, gaps: seq<nat>)
    requires Separated(tokens, gaps)
    ensures Parse(Joined(tokens, gaps), |tokens|) == Some(Values(tokens))
    ensures Joined(tokens, gaps) != [] && IsXDigit(Joined(tokens, gaps)[0])
  {
    hide TokenLength, TokenValue, Skip, Colons, Parse, IsToken, IsXDigit;
    var t := tokens[0];
    if gaps == [] {
      LastTokenParses(t);
      assert tokens == [t] && Values(tokens) == [TokenValue(t)];
    } else {
      JoinedParses(tokens[1..], gaps[1..]);
      FirstTokenParses(t, gaps[0], Joined(tokens[1..], gaps[1..]), |tokens|);
      assert Joined(tokens, gaps) == t + Colons(gaps[0]) + Joined(tokens[1..], gaps[1..]);
      assert Values(tokens) == [TokenValue(t)] + Values(tokens[1..]);
    }
  }

  lemma LastTokenParses(t: string)
    requires IsToken(t)
    ensures Parse(t, 1) == Some([TokenValue(t)]) && t != [] && IsXDigit(t[0])
  {
    hide TokenLength, TokenValue, Skip, Parse;
    TokenAtFront(t, [], true);
    assert t + [] == t;
    ParseStep(t, 1);
    ParseStep(Skip([]), 0);
    assert [TokenValue(t)] + [] == [TokenValue(t)];
  }

  lemma FirstTokenParses(t: string, gap: nat, rest: string, size: nat)
    requires IsToken(t) && gap > 0 && size > 1 && rest != [] && IsXDigit(rest[0])
    ensures var s := t + Colons(gap) + rest;
            s != [] && IsXDigit(s[0]) && Parse(s, size) == Prepend([TokenValue(t)], Parse(rest, size - 1))
  {
    hide TokenLength, TokenValue, Skip, Colons, Parse;
    SkipGap(gap, rest);
    TokenAtFront(t, Colons(gap) + rest, false);
    assert t + Colons(gap) + rest == t + (Colons(gap) + rest);
    ParseStep(t + Colons(gap) + rest, size);
  }

  /** The first token of a text that parses, the colons after it, and the rest. */
  lemma ParseSplits(s: string, size: nat) returns (t: string, gap: nat, rest: string)
    requires size > 1 && Parse(s, size).Some?
    ensures IsToken(t) && gap > 0 && s == t + (Colons(gap) + rest) && Parse(rest, size - 1).Some?
  {
    hide TokenValue, Skip, Parse, TokenLength, Colons, CountColons, IsToken;
    ParseStep(s, size);
    var n := TokenLength(s, false);
    t, gap, rest := s[..n], CountColons(s[n..]), Skip(s[n..]);
    TokenThenColon(s);
  }

  lemma OneToken(s: string)
    requires Parse(s, 1).Some?
    ensures Separated([s], []) && Joined([s], []) == s
  {
    ParseStep(s, 1);
    LastTokenIsAll(s);
  }

  lemma SeparatedCons(t: string, gap: nat, ts: seq<string>, gs: seq<nat>)
    requires IsToken(t) && gap > 0 && Separated(ts, gs)
    ensures Separated([t] + ts, [gap] + gs)
  {
    hide IsToken;
  }

  /** Nothing else parses. */
  lemma {:induction false} ParsedIsJoined(s: string, size: nat) returns (tokens: seq<string>, gaps: seq<nat>)
    requires size > 0 && Parse(s, size).Some?
    ensures Separated(tokens, gaps) && |tokens| == size && |gaps| == size - 1 && s == Joined(tokens, gaps)
    decreases size
  {
    hide Skip, Parse, Colons, Joined, Separated;
    if size == 1 {
      OneToken(s);
      tokens, gaps := [s], [];
    } else {
      var t, gap, rest := ParseSplits(s, size);
      var ts, gs := ParsedIsJoined(rest, size - 1);
      JoinFront(t, gap, ts, gs);
      SeparatedCons(t, gap, ts, gs);
      tokens, gaps := [t] + ts, [gap] + gs;
    }
  }

  lemma LastTokenIsAll(s: string)
    requires TokenLength(s, true) > 0
    ensures IsToken(s)
  {}

  lemma TokenThenColon(s: string)
    requires TokenLength(s, false) > 0
    ensures CountColons(s[TokenLength(s, false)..]) > 0
  {}

  lemma JoinFront(t: string, c: nat, ts: seq<string>, gs: seq<nat>)
    requires |ts| == |gs| + 1
    ensures Joined([t] + ts, [c] + gs) == t + (Colons(c) + Joined(ts, gs))
  {}

  /** A printed address is its bytes' tokens with single colons between them. */
  lemma {:induction false} PrintIsJoined(bs: Bytes)
    requires bs != []
    ensures Print(bs) == Joined(PrintedTokens(bs), seq(|bs| - 1, _ => 1))
  {
    if |bs| > 1 {
      PrintIsJoined(bs[1..]);
      JoinFront(PrintByte(bs[0]), 1, PrintedTokens(bs[1..]), seq(|bs| - 2, _ => 1));
      assert PrintedTokens(bs) == [PrintByte(bs[0])] + PrintedTokens(bs[1..]);
      assert seq(|bs| - 1, _ => 1 as nat) == [1] + seq(|bs| - 2, _ => 1 as nat);
      assert ":" == Colons(1);
    }
  }

  function PrintedTokens(bs: Bytes): (ts: seq<string>)
    ensures |ts| == |bs| && forall i :: 0 <= i < |ts| ==> IsToken(ts[i]) && TokenValue(ts[i]) == bs[i]
  {
    seq(|bs|, i requires 0 <= i < |bs| => PrintByte(bs[i]))
  }

  /** The digits are read in either case, and printed in upper case. */
  lemma DigitsInOrder(v: nat)
    requires v < 16
    ensures UpperDigit(v) == "0123456789ABCDEF"[v]
    ensures var upper, lower := "0123456789ABCDEF"[v], "0123456789abcdef"[v];
            IsXDigit(upper) && DigitValue(upper) == v && IsXDigit(lower) && DigitValue(lower) == v
  {}

  /** A leading zero may be left out. */
  lemma OneDigitIsEnough(c: char)
    requires IsXDigit(c)
    ensures Parse([c], 1) == Parse(['0', c], 1) == Some([DigitValue(c)])
  {
    OneTokenParses([c]);
    OneTokenParses(['0', c]);
  }

  lemma OneTokenParses(t: string)
    requires IsToken(t)
    ensures Parse(t, 1) == Some([TokenValue(t)])
  {
    ParseStep(t, 1);
    assert t[..|t|] == t && t[|t|..] == [];
    assert TokenLength(t, 1 == 1) == |t|;
    assert [TokenValue(t)] + [] == [TokenValue(t)];
  }

  /** Parsing a printed address gives the address back. */
  lemma PrintParses(bs: Bytes)
    requires bs != []
    ensures Parse(Print(bs), |bs|) == Some(bs)
  {
    PrintIsJoined(bs);
    JoinedParses(PrintedTokens(bs), seq(|bs| - 1, _ => 1));
    assert Values(PrintedTokens(bs)) == bs;
  }

  /** What Addr48FromString does with a printed 48-bit address: the six bytes come back, and the
      same integer exactly when the two bytes the parser leaves alone were right already. */
  lemma Addr48RoundTrip(address: Bytes, before: Bytes)
    requires |address| == |before| == 8
    ensures var parsed := Parse(Print(Addr48Out(address)), 6);
            && parsed.Some? && |parsed.value| == 6
            && var after := before[..2] + parsed.value;
            && Addr48Out(after) == Addr48Out(address)
            && (after == address <==> before[..2] == address[..2])
  {
    hide Parse, Print;
    PrintParses(Addr48Out(address));
    assert address == address[..2] + address[2..8];
  }

  /** Printing what was parsed is a normal form: it parses to the same address, and printing
      again changes nothing. */
  lemma PrintAfterParse(s: string, size: nat)
    requires size > 0 && Parse(s, size).Some?
    ensures Parse(Print(Parse(s, size).value), size) == Parse(s, size)
  {
    ParseLength(s, size);
    PrintParses(Parse(s, size).value);
  }

  lemma {:induction false} ParseLength(s: string, size: nat)
    ensures Parse(s, size).Some? ==> |Parse(s, size).value| == size
    decreases size
  {
    if size > 0 && TokenLength(s, size == 1) > 0 {
      ParseLength(Skip(s[TokenLength(s, size == 1)..]), size - 1);
    }
  }
}
