/** Comparing the output of a recovered program with an oracle: alternatives joined by a magic string. */
module OracleMatch {
  import opened Wrappers

  const MAGIC := "!!!"
  const MAGIC_ANY := "###"
  const MAGIC_PREV := "%%%"

  // ---- Python's `in` and `split` on strings ----

  /** The first position of `sub` in `s`, or -1. */
  function First(s: string, sub: string): (r: int)
    ensures -1 <= r && (r >= 0 ==> r + |sub| <= |s| && s[r..r + |sub|] == sub)
  {
    if |s| < |sub| then -1
    else if s[..|sub|] == sub then 0
    else if s == [] then -1
    else
      var r := First(s[1..], sub);
      assert r >= 0 ==> s[1..][r..r + |sub|] == s[r + 1..r + 1 + |sub|];
      if r < 0 then -1 else r + 1
  }

  predicate HoldsAt(s: string, sub: string, i: nat) { i + |sub| <= |s| && s[i..i + |sub|] == sub }

  /** It is the leftmost one. */
  lemma {:induction false} FirstIsLeftmost(s: string, sub: string, i: nat)
    requires HoldsAt(s, sub, i)
    ensures 0 <= First(s, sub) <= i
  {
    if s[..|sub|] != sub {
      assert i > 0 && s[1..][i - 1..i - 1 + |sub|] == s[i..i + |sub|];
      FirstIsLeftmost(s[1..], sub, i - 1);
    }
  }

  predicate Contains(s: string, sub: string) { First(s, sub) >= 0 }

  /** `in` on strings: some position holds the text. */
  lemma ContainsIff(s: string, sub: string)
    ensures Contains(s, sub) <==> exists i: nat :: HoldsAt(s, sub, i)
  {
    if Contains(s, sub) {
      assert HoldsAt(s, sub, First(s, sub));
    }
    if i: nat :| HoldsAt(s, sub, i) {
      FirstIsLeftmost(s, sub, i);
    }
  }

  lemma HoldsChars(s: string, sub: string, i: nat)
    requires |sub| == 3
    ensures HoldsAt(s, sub, i) <==> i + 3 <= |s| && s[i] == sub[0] && s[i + 1] == sub[1] && s[i + 2] == sub[2]
  {
    if HoldsAt(s, sub, i) {
      assert s[i..i + 3][0] == s[i] && s[i..i + 3][1] == s[i + 1] && s[i..i + 3][2] == s[i + 2];
    }
  }

  /** Where a text of three characters is found, and that nothing shorter finds it. */
  lemma FirstChars(s: string, sub: string)
    requires |sub| == 3 && Contains(s, sub)
    ensures var f := First(s, sub); f + 3 <= |s| && s[f] == sub[0] && s[f + 1] == sub[1] && s[f + 2] == sub[2]
  {
    HoldsChars(s, sub, First(s, sub));
  }

  lemma FoundBy(s: string, sub: string, i: nat)
    requires |sub| == 3 && i + 3 <= |s| && s[i] == sub[0] && s[i + 1] == sub[1] && s[i + 2] == sub[2]
    ensures 0 <= First(s, sub) <= i
  {
    HoldsChars(s, sub, i);
    FirstIsLeftmost(s, sub, i);
  }

  function SplitOn(s: string, sep: string): seq<string>
    requires sep != []
    decreases |s|
  {
    var i := First(s, sep);
    if i < 0 then [s] else [s[..i]] + SplitOn(s[i + |sep|..], sep)
  }

  /** The white space that strip removes. */
  predicate IsSpace(c: char) {
    var u := c as int;
    || 0x09 <= u <= 0x0d || 0x1c <= u <= 0x20 || u in {0x85, 0xa0, 0x1680}
    || 0x2000 <= u <= 0x200a || u in {0x2028, 0x2029, 0x202f, 0x205f, 0x3000}
  }

  function Strip(s: string): string {
    if s == [] then [] else if IsSpace(s[0]) then Strip(s[1..])
    else if IsSpace(s[|s| - 1]) then Strip(s[..|s| - 1]) else s
  }

  /** Exactly the white space at both ends is gone: there is none left at the ends, */
  lemma {:induction false} StripEnds(s: string)
    ensures Strip(s) != "" ==> !IsSpace(Strip(s)[0]) && !IsSpace(Strip(s)[|Strip(s)| - 1])
    decreases |s|
  {
    if s != [] {
      if IsSpace(s[0]) {
        StripEnds(s[1..]);
      } else if IsSpace(s[|s| - 1]) {
        StripEnds(s[..|s| - 1]);
      }
    }
  }

  ghost predicate SpaceOutside(s: string, k: nat, n: nat) {
    forall i :: 0 <= i < |s| && !(k <= i < k + n) ==> IsSpace(s[i])
  }

  lemma SpaceInFront(s: string, k: nat, n: nat)
    requires s != [] && IsSpace(s[0]) && SpaceOutside(s[1..], k, n)
    ensures SpaceOutside(s, k + 1, n)
  {
    forall i | 0 < i < |s| && !(k + 1 <= i < k + 1 + n) ensures IsSpace(s[i]) {
      assert s[i] == s[1..][i - 1];
    }
  }

  lemma SpaceBehind(s: string, k: nat, n: nat)
    requires s != [] && IsSpace(s[|s| - 1]) && SpaceOutside(s[..|s| - 1], k, n)
    ensures SpaceOutside(s, k, n)
  {
    forall i | 0 <= i < |s| - 1 && !(k <= i < k + n) ensures IsSpace(s[i]) {
      assert s[i] == s[..|s| - 1][i];
    }
  }

  /** and everything outside of it is white space. */
  lemma {:induction false} StripAround(s: string) returns (k: nat)
    ensures k + |Strip(s)| <= |s| && s[k..k + |Strip(s)|] == Strip(s) && SpaceOutside(s, k, |Strip(s)|)
    decreases |s|
  {
    var n := |Strip(s)|;
    if s == [] || (!IsSpace(s[0]) && !IsSpace(s[|s| - 1])) {
      k := 0;
    } else if IsSpace(s[0]) {
      assert Strip(s) == Strip(s[1..]);
      k := StripAround(s[1..]);
      SpaceInFront(s, k, n);
      assert s[1..][k..k + n] == s[k + 1..k + 1 + n];
      k := k + 1;
    } else {
      assert Strip(s) == Strip(s[..|s| - 1]);
      k := StripAround(s[..|s| - 1]);
      SpaceBehind(s, k, n);
      assert s[..|s| - 1][k..k + n] == s[k..k + n];
    }
  }

  // ---- Matching ----

  /** What an oracle accepts: anything, or the previous output, or one of its alternatives. */
  predicate Matches(output: string, oracle: string, prev: Option<string>) {
    Contains(oracle, MAGIC_ANY) ||
    (if Contains(oracle, MAGIC_PREV) then prev == Some(Strip(output)) else output in SplitOn(oracle, MAGIC))
  }

  /** An empty oracle is skipped. */
  predicate Lets(output: string, oracle: string, prev: Option<string>) {
    oracle == "" || Matches(output, oracle, prev)
  }

  /** For an oracle joined from separable alternatives, `r` says whether the output is one of them. */
  ghost predicate DecidesJoined(output: string, oracle: string, r: bool) {
    forall vs :: Separable(vs) && oracle == Join(vs) ==> (r <==> output in vs)
  }

  /** OPValidator.match: `prev` is the output before this one, if any. For an oracle joined from separable
      alternatives the answer is whether the output is one of them. */
  method Match(output: string, oracle: string, prev: Option<string>) returns (r: bool)
    ensures r == Matches(output, oracle, prev)
    ensures DecidesJoined(output, oracle, r)
  {
    r := Compare(output, oracle, prev);
    MatchesJoined(output, oracle, prev);
  }

  /** Its branches. */
  method Compare(output: string, oracle: string, prev: Option<string>) returns (r: bool)
    ensures r == Matches(output, oracle, prev)
  {
    if Contains(oracle, MAGIC_ANY) {
      return true;
    }
    if Contains(oracle, MAGIC_PREV) {
      return prev == Some(Strip(output));
    }
    if !Contains(oracle, MAGIC) {
      return output == oracle;
    }
    r := Among(output, SplitOn(oracle, MAGIC));
  }

  /** Its loop over the alternatives. */
  method Among(output: string, parts: seq<string>) returns (r: bool)
    ensures r <==> output in parts
  {
    for i := 0 to |parts|
      invariant output !in parts[..i]
    {
      if output == parts[i] {
        return true;
      }
    }
    assert parts[..|parts|] == parts;
    return false;
  }

  // ---- Alternatives ----

  predicate EndsInBang(v: string) { v != [] && v[|v| - 1] == '!' }

  /** No magic string inside, and no part of one at the end. */
  predicate Plain(v: string) { NoMagic(v) && !EndsInBang(v) }

  predicate NoMagic(v: string) { !Contains(v, MAGIC) && !Contains(v, MAGIC_ANY) && !Contains(v, MAGIC_PREV) }

  /** Alternatives that can be told apart once they are joined: no magic string inside any, and none but the last ends
      in a part of the separator. */
  ghost predicate Separable(vs: seq<string>) {
    vs != [] && SplitsBack(vs) && forall i :: 0 <= i < |vs| ==> NoMagic(vs[i])
  }

  ghost predicate SplitsBack(vs: seq<string>) {
    && (forall i :: 0 <= i < |vs| ==> !Contains(vs[i], MAGIC))
    && (forall i :: 0 <= i < |vs| - 1 ==> !EndsInBang(vs[i]))
  }

  lemma PlainChars(v: string)
    requires '!' !in v && '#' !in v && '%' !in v
    ensures Plain(v) && Separable([v])
  {
    NotContained(v, '!', MAGIC);
    NotContained(v, '#', MAGIC_ANY);
    NotContained(v, '%', MAGIC_PREV);
  }

  lemma PlainPair(v: string, w: string)
    requires Plain(v) && Plain(w)
    ensures Separable([v]) && Separable([v, w])
  {
  }

  /** Alternatives, joined. */
  function Join(vs: seq<string>): string {
    if vs == [] then "" else if |vs| == 1 then vs[0] else vs[0] + MAGIC + Join(vs[1..])
  }

  lemma JoinEmptyIff(vs: seq<string>)
    requires vs != []
    ensures Join(vs) == "" <==> vs == [""]
  {
  }

  lemma NotContained(s: string, c: char, sub: string)
    requires c !in s && c in sub
    ensures !Contains(s, sub)
  {
  }

  /** The separator is found right after a text that neither has it nor ends in a part of it. */
  lemma FirstAfter(v: string, rest: string)
    requires !Contains(v, MAGIC) && !EndsInBang(v)
    ensures First(v + MAGIC + rest, MAGIC) == |v|
  {
    var s := v + MAGIC + rest;
    FoundBy(s, MAGIC, |v|);
    FirstChars(s, MAGIC);
    var f := First(s, MAGIC);
    if f < |v| {
      BangsInside(v, rest, f);
      FoundBy(v, MAGIC, f);
    }
  }

  /** Three '!' that begin in a text that does not end in one also end in it. */
  lemma BangsInside(v: string, rest: string, f: nat)
    requires var s := v + MAGIC + rest; f < |v| && s[f] == '!' && s[f + 1] == '!' && s[f + 2] == '!'
    requires !EndsInBang(v)
    ensures f + 3 <= |v| && v[f] == '!' && v[f + 1] == '!' && v[f + 2] == '!'
  {
    var s := v + MAGIC + rest;
    assert s[|v| - 1] == v[|v| - 1] != '!';
  }

  /** And earlier after a text that does. */
  lemma FirstBefore(v: string, rest: string)
    requires EndsInBang(v)
    ensures 0 <= First(v + MAGIC + rest, MAGIC) < |v|
  {
    FoundBy(v + MAGIC + rest, MAGIC, |v| - 1);
  }

  lemma SplitHead(v: string, rest: string)
    requires !Contains(v, MAGIC) && !EndsInBang(v)
    ensures SplitOn(v + MAGIC + rest, MAGIC) == [v] + SplitOn(rest, MAGIC)
  {
    var s := v + MAGIC + rest;
    FirstAfter(v, rest);
    assert s[..|v|] == v && s[|v| + 3..] == rest;
  }

  lemma SplitHeadLost(v: string, rest: string)
    requires Contains(v, MAGIC) || EndsInBang(v)
    ensures var ps := SplitOn(v + MAGIC + rest, MAGIC); ps != [] && ps[0] != v
  {
    var s := v + MAGIC + rest;
    JoinSplit(s);
    if EndsInBang(v) {
      FirstBefore(v, rest);
    }
  }

  lemma SplitHeadIff(v: string, rest: string, tail: seq<string>)
    ensures SplitOn(v + MAGIC + rest, MAGIC) == [v] + tail <==>
            !Contains(v, MAGIC) && !EndsInBang(v) && SplitOn(rest, MAGIC) == tail
  {
    if Contains(v, MAGIC) || EndsInBang(v) {
      SplitHeadLost(v, rest);
    } else {
      SplitHead(v, rest);
      assert ([v] + tail)[1..] == tail && ([v] + SplitOn(rest, MAGIC))[1..] == SplitOn(rest, MAGIC);
    }
  }

  /** Splitting joined alternatives gives them back if and only if none has the separator inside and none but the last
      ends in a part of it. */
  lemma {:induction false} SplitJoin(vs: seq<string>)
    requires vs != []
    ensures SplitOn(Join(vs), MAGIC) == vs <==> SplitsBack(vs)
  {
    if |vs| == 1 {
      JoinSplit(vs[0]);
    } else {
      SplitJoin(vs[1..]);
      SplitsBackTail(vs);
      SplitHeadIff(vs[0], Join(vs[1..]), vs[1..]);
      assert vs == [vs[0]] + vs[1..];
    }
  }

  lemma SplitsBackTail(vs: seq<string>)
    requires |vs| > 1
    ensures SplitsBack(vs) <==> !Contains(vs[0], MAGIC) && !EndsInBang(vs[0]) && SplitsBack(vs[1..])
  {
    assert forall i :: 0 <= i < |vs| - 1 ==> vs[1..][i] == vs[i + 1];
    if SplitsBack(vs[1..]) && !Contains(vs[0], MAGIC) && !EndsInBang(vs[0]) {
      forall i | 0 <= i < |vs| ensures !Contains(vs[i], MAGIC) && (i < |vs| - 1 ==> !EndsInBang(vs[i])) {
        if i > 0 {
          assert vs[i] == vs[1..][i - 1];
        }
      }
    }
  }

  /** Whatever the text: its pieces joined again are the text, and no piece has the separator. */
  lemma {:induction false} JoinSplit(s: string)
    ensures SplitOn(s, MAGIC) != [] && Join(SplitOn(s, MAGIC)) == s
    ensures forall i :: 0 <= i < |SplitOn(s, MAGIC)| ==> !Contains(SplitOn(s, MAGIC)[i], MAGIC)
    decreases |s|
  {
    var i := First(s, MAGIC);
    if i >= 0 {
      var piece, rest := s[..i], s[i + 3..];
      JoinSplit(rest);
      assert s == piece + MAGIC + rest;
      HeadHasNone(s);
    }
  }

  lemma HeadHasNone(s: string)
    requires Contains(s, MAGIC)
    ensures !Contains(s[..First(s, MAGIC)], MAGIC)
  {
    var head := s[..First(s, MAGIC)];
    if Contains(head, MAGIC) {
      FirstChars(head, MAGIC);
      FoundBy(s, MAGIC, First(head, MAGIC));
    }
  }

  /** A magic string without '!' does not arise where texts are joined. */
  lemma ContainsJoined(v: string, rest: string, sub: string)
    requires |sub| == 3 && '!' !in sub
    ensures Contains(v + MAGIC + rest, sub) <==> Contains(v, sub) || Contains(rest, sub)
  {
    var s, n := v + MAGIC + rest, |v| + 3;
    if Contains(s, sub) {
      FoundInPart(v, rest, sub);
    }
    if Contains(v, sub) {
      FirstChars(v, sub);
      FoundBy(s, sub, First(v, sub));
    }
    if Contains(rest, sub) {
      FirstChars(rest, sub);
      FoundBy(s, sub, n + First(rest, sub));
    }
  }

  lemma FoundInPart(v: string, rest: string, sub: string)
    requires |sub| == 3 && '!' !in sub && Contains(v + MAGIC + rest, sub)
    ensures Contains(v, sub) || Contains(rest, sub)
  {
    var s := v + MAGIC + rest;
    FirstChars(s, sub);
    var f := First(s, sub);
    assert s[f] != '!' && s[f + 1] != '!' && s[f + 2] != '!';
    assert s[|v|] == '!' && s[|v| + 1] == '!' && s[|v| + 2] == '!';
    if f + 3 <= |v| {
      FoundBy(v, sub, f);
    } else {
      FoundBy(rest, sub, f - |v| - 3);
    }
  }

  lemma {:induction false} JoinContains(vs: seq<string>, sub: string)
    requires vs != [] && |sub| == 3 && '!' !in sub
    ensures Contains(Join(vs), sub) <==> exists i :: 0 <= i < |vs| && Contains(vs[i], sub)
  {
    if |vs| > 1 {
      JoinContains(vs[1..], sub);
      ContainsJoined(vs[0], Join(vs[1..]), sub);
      if i :| 0 < i < |vs| && Contains(vs[i], sub) {
        assert Contains(vs[1..][i - 1], sub);
      }
    }
  }

  /** Round trip: an oracle joined from separable alternatives accepts exactly those alternatives. */
  lemma MatchesAlternatives(output: string, vs: seq<string>, prev: Option<string>)
    requires Separable(vs)
    ensures Matches(output, Join(vs), prev) <==> output in vs
  {
    JoinContains(vs, MAGIC_ANY);
    JoinContains(vs, MAGIC_PREV);
    SplitJoin(vs);
  }

  /** A single alternative recognises itself: exactly when it has a wildcard, or asks for the previous output and is
      that, or has no separator inside. */
  predicate Recognised(v: string, prev: Option<string>) {
    Contains(v, MAGIC_ANY) || (if Contains(v, MAGIC_PREV) then prev == Some(Strip(v)) else !Contains(v, MAGIC))
  }

  lemma MatchesSelf(v: string, prev: Option<string>)
    ensures Matches(v, v, prev) <==> Recognised(v, prev)
  {
    JoinSplit(v);
  }

  /** A value with the separator inside does not recognise itself. */
  lemma SeparatorNotRecognised(prev: Option<string>)
    ensures !Matches("a!!!b", "a!!!b", prev)
  {
    var v := "a!!!b";
    FoundBy(v, MAGIC, 1);
    NotContained(v, '#', MAGIC_ANY);
    NotContained(v, '%', MAGIC_PREV);
    MatchesSelf(v, prev);
  }

  /** Two alternatives are both among the pieces of their join. */
  predicate PairSplits(a: string, b: string) {
    && !Contains(a, MAGIC) && !Contains(b, MAGIC)
    && (!EndsInBang(a) || (b == "" && (a == "!" || a == "!!")))
  }

  lemma {:induction false} PieceLength(s: string, piece: string)
    requires piece in SplitOn(s, MAGIC)
    ensures |piece| <= |s| && (Contains(s, MAGIC) ==> |piece| <= |s| - 3)
    decreases |s|
  {
    var i := First(s, MAGIC);
    if i >= 0 && piece != s[..i] {
      PieceLength(s[i + 3..], piece);
    }
  }

  /** Where the separator is found when the text before it ends in a part of it: one or two characters early, after a
      text that does not end in a part of it. */
  lemma BangRun(a: string, b: string, f: nat)
    requires EndsInBang(a) && !Contains(a, MAGIC) && f == First(a + MAGIC + b, MAGIC)
    ensures |a| - 2 <= f < |a| && !EndsInBang((a + MAGIC + b)[..f])
    ensures forall i :: f <= i < |a| ==> a[i] == '!'
  {
    FirstBefore(a, b);
    FirstChars(a + MAGIC + b, MAGIC);
    if f + 3 <= |a| {
      FoundBy(a, MAGIC, f);
    }
    BangBefore(a + MAGIC + b, f);
  }

  /** No part of the separator comes right before its first place. */
  lemma BangBefore(s: string, f: nat)
    requires f == First(s, MAGIC)
    ensures !EndsInBang(s[..f])
  {
    FirstChars(s, MAGIC);
    if EndsInBang(s[..f]) {
      FoundBy(s, MAGIC, f - 1);
    }
  }

  lemma AroundBangs(a: string, b: string, f: nat)
    requires |a| - 2 <= f < |a| && forall i :: f <= i < |a| ==> a[i] == '!'
    ensures (a + MAGIC + b)[..f] == a[..f] && (a + MAGIC + b)[f + 3..] == a[f..] + b
  {
    var s, t := (a + MAGIC + b)[f + 3..], a[f..] + b;
    assert |s| == |t|;
    forall i | 0 <= i < |s| ensures s[i] == t[i] {
      if i >= |a| - f {
        assert s[i] == b[i - (|a| - f)];
      }
    }
  }

  /** No piece of a longer text is the text without its run of '!'. */
  lemma NotAPiece(rest: string, b: string)
    requires |b| < |rest| <= |b| + 2
    ensures b !in SplitOn(rest, MAGIC)
  {
    if b in SplitOn(rest, MAGIC) {
      PieceLength(rest, b);
    }
  }

  /** When the first of two alternatives ends in a part of the separator, both survive only if it is nothing but that
      part and the second is empty. */
  lemma BangPair(a: string, b: string)
    requires EndsInBang(a) && !Contains(a, MAGIC)
    requires var ps := SplitOn(a + MAGIC + b, MAGIC); a in ps && b in ps
    ensures b == "" && (a == "!" || a == "!!")
  {
    var s := a + MAGIC + b;
    FirstBefore(a, b);
    var f := First(s, MAGIC);
    BangRun(a, b, f);
    AroundBangs(a, b, f);
    var rest := a[f..] + b;
    assert SplitOn(s, MAGIC) == [a[..f]] + SplitOn(rest, MAGIC);
    NotAPiece(rest, b);
    assert b == a[..f] && a in SplitOn(rest, MAGIC);
    PieceLength(rest, a);
    assert a == rest;
  }

  /** Both alternatives of a pair are pieces of their join if and only if `PairSplits`. */
  lemma PairSplitsIff(a: string, b: string)
    ensures var ps := SplitOn(a + MAGIC + b, MAGIC); a in ps && b in ps <==> PairSplits(a, b)
  {
    var s := a + MAGIC + b;
    JoinSplit(s);
    if PairSplits(a, b) {
      if EndsInBang(a) {
        BangPieces(a);
      } else {
        SplitHead(a, b);
      }
    }
    var ps := SplitOn(s, MAGIC);
    if a in ps && b in ps && EndsInBang(a) {
      BangPair(a, b);
    }
  }

  lemma BangPieces(a: string)
    requires a == "!" || a == "!!"
    ensures SplitOn(a + MAGIC + "", MAGIC) == ["", a] && !Contains(a, MAGIC)
  {
    var s := a + MAGIC + "";
    assert s[..3] == MAGIC && s[3..] == a;
  }

  lemma MatchesJoined(output: string, oracle: string, prev: Option<string>)
    ensures DecidesJoined(output, oracle, Matches(output, oracle, prev))
  {
    forall vs | Separable(vs) && oracle == Join(vs) ensures Matches(output, oracle, prev) <==> output in vs {
      MatchesAlternatives(output, vs, prev);
    }
  }

  lemma MatchesAny(output: string, prev: Option<string>)
    ensures Matches(output, MAGIC_ANY, prev)
  {
    assert MAGIC_ANY[..3] == MAGIC_ANY;
  }

  /** What two alternatives must be like to be accepted by their line, when `p` was printed before the first and `q`
      before the second: one has a wildcard, or both are the previous output that one asks for, or they can be told
      apart. */
  predicate BothReadable(a: string, b: string, p: Option<string>, q: Option<string>) {
    || Contains(a, MAGIC_ANY) || Contains(b, MAGIC_ANY)
    || (if Contains(a, MAGIC_PREV) || Contains(b, MAGIC_PREV)
        then p == Some(Strip(a)) && q == Some(Strip(b))
        else PairSplits(a, b))
  }

  lemma BothReadableIff(a: string, b: string, p: Option<string>, q: Option<string>)
    ensures var line := a + MAGIC + b;
            Matches(a, line, p) && Matches(b, line, q) <==> BothReadable(a, b, p, q)
  {
    ContainsJoined(a, b, MAGIC_ANY);
    ContainsJoined(a, b, MAGIC_PREV);
    PairSplitsIff(a, b);
  }

  /** And one or two: a single one recognises itself both times, or is empty and skipped. */
  predicate LineReadable(vs: seq<string>, p: Option<string>, q: Option<string>)
    requires 1 <= |vs| <= 2
  {
    if |vs| == 1 then vs[0] == "" || (Recognised(vs[0], p) && Recognised(vs[0], q))
    else BothReadable(vs[0], vs[1], p, q)
  }

  /** Whatever the alternatives are: their line lets the first and the last through if and only if it is readable. */
  lemma LineReadableIff(vs: seq<string>, p: Option<string>, q: Option<string>)
    requires 1 <= |vs| <= 2
    ensures Lets(vs[0], Join(vs), p) && Lets(vs[|vs| - 1], Join(vs), q) <==> LineReadable(vs, p, q)
  {
    if |vs| == 1 {
      MatchesSelf(vs[0], p);
      MatchesSelf(vs[0], q);
    } else {
      TwoReadableIff(vs, p, q);
    }
  }

  lemma TwoReadableIff(vs: seq<string>, p: Option<string>, q: Option<string>)
    requires |vs| == 2
    ensures Lets(vs[0], Join(vs), p) && Lets(vs[1], Join(vs), q) <==> BothReadable(vs[0], vs[1], p, q)
  {
    JoinTwo(vs);
    BothReadableIff(vs[0], vs[1], p, q);
    var line := vs[0] + MAGIC + vs[1];
    assert Lets(vs[0], Join(vs), p) <==> Matches(vs[0], line, p);
    assert Lets(vs[1], Join(vs), q) <==> Matches(vs[1], line, q);
  }

  /** Separable alternatives are readable. */
  lemma SeparableReadable(vs: seq<string>, p: Option<string>, q: Option<string>)
    requires Separable(vs) && |vs| <= 2
    ensures LineReadable(vs, p, q)
  {
    MatchesAlternatives(vs[0], vs, p);
    MatchesAlternatives(vs[|vs| - 1], vs, q);
    LineReadableIff(vs, p, q);
  }

  lemma JoinTwo(vs: seq<string>)
    requires |vs| == 2
    ensures Join(vs) == vs[0] + MAGIC + vs[1] != ""
  {
    assert vs[1..] == [vs[1]];
  }

  // ---- Validating a whole run ----

  datatype Verdict = Accepted | NoOutput | LengthMismatch | ValueMismatch

  /** The last output that was compared before position `i`: empty oracles are skipped. */
  function Previous(outputs: seq<string>, oracles: seq<string>, i: nat): Option<string>
    requires i <= |outputs| && i <= |oracles|
  {
    if i == 0 then None
    else if oracles[i - 1] == "" then Previous(outputs, oracles, i - 1)
    else Some(outputs[i - 1])
  }

  /** It is the output of the last nonempty oracle before position `i`, and nothing if there is none. */
  lemma {:induction false} PreviousIs(outputs: seq<string>, oracles: seq<string>, i: nat, j: nat)
    requires i <= |outputs| && i <= |oracles|
    requires j < i && oracles[j] != "" && forall k :: j < k < i ==> oracles[k] == ""
    ensures Previous(outputs, oracles, i) == Some(outputs[j])
  {
    if j < i - 1 {
      PreviousIs(outputs, oracles, i - 1, j);
    }
  }

  lemma {:induction false} NothingBefore(outputs: seq<string>, oracles: seq<string>, i: nat)
    requires i <= |outputs| && i <= |oracles| && forall k :: 0 <= k < i ==> oracles[k] == ""
    ensures Previous(outputs, oracles, i) == None
  {
    if i > 0 {
      NothingBefore(outputs, oracles, i - 1);
    }
  }

  predicate AcceptedAt(outputs: seq<string>, oracles: seq<string>, i: nat)
    requires i < |outputs| && i < |oracles|
  {
    Lets(outputs[i], oracles[i], Previous(outputs, oracles, i))
  }

  /** Acceptance looks only at the lines up to there. */
  lemma SameOutputs(xs: seq<string>, ys: seq<string>, os: seq<string>, ps: seq<string>, k: nat)
    requires k < |xs| && k < |ys| && k < |os| && k < |ps|
    requires forall j :: 0 <= j <= k ==> xs[j] == ys[j] && os[j] == ps[j]
    ensures AcceptedAt(xs, os, k) <==> AcceptedAt(ys, ps, k)
  {
    SamePrevious(xs, ys, os, ps, k);
  }

  lemma {:induction false} SamePrevious(xs: seq<string>, ys: seq<string>, os: seq<string>, ps: seq<string>, k: nat)
    requires k <= |xs| && k <= |ys| && k <= |os| && k <= |ps|
    requires forall j :: 0 <= j < k ==> xs[j] == ys[j] && os[j] == ps[j]
    ensures Previous(xs, os, k) == Previous(ys, ps, k)
  {
    if k > 0 {
      SamePrevious(xs, ys, os, ps, k - 1);
    }
  }

  /** What the validator makes of a line with separable alternatives: the output is one of them, except that a single
      empty alternative gives an empty oracle, and the line is skipped. */
  lemma AcceptedAlternatives(outputs: seq<string>, oracles: seq<string>, i: nat, vs: seq<string>)
    requires i < |outputs| && i < |oracles| && Separable(vs) && oracles[i] == Join(vs)
    ensures AcceptedAt(outputs, oracles, i) <==> vs == [""] || outputs[i] in vs
  {
    MatchesAlternatives(outputs[i], vs, Previous(outputs, oracles, i));
    JoinEmptyIff(vs);
  }

  ghost predicate AllAccepted(outputs: seq<string>, oracles: seq<string>) {
    |outputs| == |oracles| && forall i :: 0 <= i < |oracles| ==> AcceptedAt(outputs, oracles, i)
  }

  /** One more line. */
  lemma AllAcceptedNext(outputs: seq<string>, output: string, oracles: seq<string>, oracle: string)
    requires |outputs| == |oracles|
    ensures AllAccepted(outputs + [output], oracles + [oracle]) <==>
            && AllAccepted(outputs, oracles)
            && Lets(output, oracle, Previous(outputs, oracles, |outputs|))
  {
    AllAcceptedFront(outputs, output, oracles, oracle);
    LastAccepted(outputs, output, oracles, oracle);
    AcceptedSplit(outputs + [output], oracles + [oracle], |outputs|);
  }

  lemma LastAccepted(outputs: seq<string>, output: string, oracles: seq<string>, oracle: string)
    requires |outputs| == |oracles|
    ensures AcceptedAt(outputs + [output], oracles + [oracle], |outputs|) <==>
            Lets(output, oracle, Previous(outputs, oracles, |outputs|))
  {
    PreviousNext(outputs, output, oracles, oracle);
  }

  lemma AcceptedSplit(xs: seq<string>, os: seq<string>, n: nat)
    requires |xs| == |os| == n + 1
    ensures AllAccepted(xs, os) <==> (forall i :: 0 <= i < n ==> AcceptedAt(xs, os, i)) && AcceptedAt(xs, os, n)
  {
  }

  lemma PreviousNext(outputs: seq<string>, output: string, oracles: seq<string>, oracle: string)
    requires |outputs| == |oracles|
    ensures var xs, os, n := outputs + [output], oracles + [oracle], |outputs|;
            && Previous(xs, os, n) == Previous(outputs, oracles, n)
            && Previous(xs, os, n + 1) == if oracle == "" then Previous(outputs, oracles, n) else Some(output)
  {
    SamePrevious(outputs + [output], outputs, oracles + [oracle], oracles, |outputs|);
  }

  lemma AllAcceptedFront(outputs: seq<string>, output: string, oracles: seq<string>, oracle: string)
    requires |outputs| == |oracles|
    ensures AllAccepted(outputs, oracles) <==>
            forall i :: 0 <= i < |outputs| ==> AcceptedAt(outputs + [output], oracles + [oracle], i)
  {
    forall i | 0 <= i < |outputs|
      ensures AcceptedAt(outputs + [output], oracles + [oracle], i) <==> AcceptedAt(outputs, oracles, i)
    {
      SameOutputs(outputs + [output], outputs, oracles + [oracle], oracles, i);
    }
  }

  /** OPValidator.validate; `outputs` is missing when the program left no output file. */
  method Validate(timeout: bool, outputs: Option<seq<string>>, oracles: seq<string>) returns (r: Verdict)
    ensures r.Accepted? <==> timeout || (outputs.Some? && AllAccepted(outputs.value, oracles))
    ensures r.NoOutput? <==> !timeout && outputs.None?
    ensures r.LengthMismatch? <==> !timeout && outputs.Some? && |outputs.value| != |oracles|
  {
    if timeout {
      return Accepted;
    }
    if outputs.None? {
      return NoOutput;
    }
    var lines := outputs.value;
    if |lines| != |oracles| {
      return LengthMismatch;
    }
    var prev := None;
    for i := 0 to |oracles|
      invariant prev == Previous(lines, oracles, i)
      invariant forall k :: 0 <= k < i ==> AcceptedAt(lines, oracles, k)
    {
      if oracles[i] != "" {
        var ok := Match(lines[i], oracles[i], prev);
        if !ok {
          assert !AcceptedAt(lines, oracles, i);
          return ValueMismatch;
        }
        prev := Some(lines[i]);
      }
    }
    return Accepted;
  }
}
