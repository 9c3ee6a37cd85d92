/**
 installalias.c: printing and reading back is the identity on printable pairs only.  Every
 byte a token is made of is paid for in the file: an ordinary one with itself, a quote, a
 backslash or a newline with itself and a backslash before it.
 */
module AliasExact {
  import opened Options
  import opened AliasText
  import opened CValues

  // ---------- counting bytes ----------

  predicate Special(b: Byte) { b == DQUOTE || b == BACKSLASH || b == LF }
  predicate Plain(b: Byte) { !Special(b) }
  predicate White(b: Byte) { b == SPACE || b == TAB }
  predicate Quote(b: Byte) { b == DQUOTE }
  predicate Newline(b: Byte) { b == LF }

  function Count(s: seq<Byte>, f: Byte -> bool): (n: nat)
    ensures n <= |s|
  {
    CountTo(s, f, |s|)
  }

  /** Among the first `n` bytes. */
  function CountTo(s: seq<Byte>, f: Byte -> bool, n: nat): (c: nat)
    requires n <= |s|
    ensures c <= n
  {
    if n == 0 then 0 else CountTo(s, f, n - 1) + Bit(f(s[n - 1]))
  }

  lemma {:induction false} CountToAppend(a: seq<Byte>, b: seq<Byte>, f: Byte -> bool, n: nat)
    requires n <= |b|
    ensures CountTo(a + b, f, |a| + n) == CountTo(a, f, |a|) + CountTo(b, f, n)
  {
    if n == 0 {
      SameStart(a + b, a, f, |a|);
    } else {
      CountToAppend(a, b, f, n - 1);
    }
  }

  lemma {:induction false} SameStart(s: seq<Byte>, t: seq<Byte>, f: Byte -> bool, n: nat)
    requires n <= |s| && n <= |t| && forall i :: 0 <= i < n ==> s[i] == t[i]
    ensures CountTo(s, f, n) == CountTo(t, f, n)
  {
    if n > 0 { SameStart(s, t, f, n - 1); }
  }

  lemma CountAppend(a: seq<Byte>, b: seq<Byte>, f: Byte -> bool)
    ensures Count(a + b, f) == Count(a, f) + Count(b, f)
  {
    CountToAppend(a, b, f, |b|);
  }

  lemma CountCons(b: Byte, s: seq<Byte>, f: Byte -> bool)
    ensures Count([b] + s, f) == Bit(f(b)) + Count(s, f)
  {
    CountAppend([b], s, f);
    CountOne(b, f);
  }

  lemma CountOne(b: Byte, f: Byte -> bool)
    ensures Count([b], f) == Bit(f(b))
  {
    assert CountTo([b], f, 0) == 0;
  }

  lemma {:induction false} CountZero(s: seq<Byte>, f: Byte -> bool, n: nat)
    requires n <= |s|
    ensures CountTo(s, f, n) == 0 <==> forall i :: 0 <= i < n ==> !f(s[i])
  {
    if n > 0 { CountZero(s, f, n - 1); }
  }

  /** Lower-casing changes neither which bytes are special nor which are quotes. */
  lemma CountLowered(s: seq<Byte>, f: Byte -> bool)
    requires forall b :: f(ToLower(b)) == f(b)
    ensures Count(Lowered(s), f) == Count(s, f)
  {
    CountToLowered(s, f, |s|);
  }

  lemma {:induction false} CountToLowered(s: seq<Byte>, f: Byte -> bool, n: nat)
    requires n <= |s| && forall b :: f(ToLower(b)) == f(b)
    ensures CountTo(Lowered(s), f, n) == CountTo(s, f, n)
  {
    if n > 0 { CountToLowered(s, f, n - 1); }
  }

  // ---------- one token, with an account of the bytes it took ----------

  datatype Stop = AtWhite | AtNewline | AtEnd

  /** The bytes of a token begun, the bytes of the file it took, and how many of these were quotes and backslashes. */
  datatype Run = Run(out: seq<Byte>, used: nat, toggles: nat, escapes: nat, stop: Stop)

  datatype Move = Halt(last: Run) | Escape | Toggle | Keep

  /** What the scanner does next. */
  function MoveOf(s: seq<Byte>, quoted: bool): (m: Move)
    ensures m.Halt? ==> m.last.used <= |s|
    ensures m.Escape? ==> |s| >= 2 && s[0] == BACKSLASH
    ensures m.Toggle? ==> s != [] && s[0] == DQUOTE
    ensures m.Keep? ==> s != [] && Plain(s[0])
  {
    if s == [] then Halt(Run([], 0, 0, 0, AtEnd))
    else if s[0] == BACKSLASH then if |s| == 1 then Halt(Run([], 1, 0, 1, AtEnd)) else Escape
    else if s[0] == DQUOTE then Toggle
    else if White(s[0]) && !quoted then Halt(Run([], 1, 0, 0, AtWhite))
    else if s[0] == LF then Halt(Run([], 0, 0, 0, AtNewline))
    else Keep
  }

  function RunOf(s: seq<Byte>, quoted: bool): (r: Run)
    ensures r.used <= |s|
    decreases |s|
  {
    match MoveOf(s, quoted)
    case Halt(last) => last
    case Escape => AfterEscape(s[1], RunOf(s[2..], quoted))
    case Toggle => AfterToggle(RunOf(s[1..], !quoted))
    case Keep => AfterKeep(s[0], RunOf(s[1..], quoted))
  }

  function AfterEscape(b: Byte, r: Run): Run { Run([b] + r.out, r.used + 2, r.toggles, r.escapes + 1, r.stop) }
  function AfterToggle(r: Run): Run { Run(r.out, r.used + 1, r.toggles + 1, r.escapes, r.stop) }
  function AfterKeep(b: Byte, r: Run): Run { Run([b] + r.out, r.used + 1, r.toggles, r.escapes, r.stop) }

  /** A character that goes into the buffer, escaped or not. */
  lemma EmitStep(s: seq<Byte>, quoted: bool, acc: seq<Byte>)
    requires Lexc(s).0.NORMAL? || (Lexc(s).0.WHITE? && quoted)
    ensures var (_, c, rest), state := Lexc(s), if quoted then Quoted else Normal;
            && |rest| < |s| && rest == s[|s| - |rest|..]
            && Lex(s, state, acc) == Lex(rest, state, acc + [c])
            && RunOf(s, quoted).out == [c] + RunOf(rest, quoted).out
            && RunOf(s, quoted).used == RunOf(rest, quoted).used + |s| - |rest|
  {
  }

  lemma HaltIsLex(s: seq<Byte>, quoted: bool, acc: seq<Byte>)
    requires MoveOf(s, quoted).Halt?
    ensures Lex(s, if quoted then Quoted else Normal, acc) == (Name(acc), s[MoveOf(s, quoted).last.used..])
    ensures MoveOf(s, quoted).last.out == []
  {
    assert s[|s|..] == [];
  }

  /** The token the scanner finds is the account's, and the rest of the file what the account left. */
  lemma {:induction false} RunIsLex(s: seq<Byte>, quoted: bool, acc: seq<Byte>)
    ensures Lex(s, if quoted then Quoted else Normal, acc) == (Name(acc + RunOf(s, quoted).out), s[RunOf(s, quoted).used..])
    decreases |s|
  {
    var (charClass, c, rest) := Lexc(s);
    match MoveOf(s, quoted)
    case Halt(last) =>
      HaltIsLex(s, quoted, acc);
      assert acc + [] == acc;
    case Toggle => RunIsLex(rest, !quoted, acc);
    case _ =>
      EmitStep(s, quoted, acc);
      RunIsLex(rest, quoted, acc + [c]);
      assert acc + [c] + RunOf(rest, quoted).out == acc + ([c] + RunOf(rest, quoted).out);
  }

  /** What the bytes taken are, of any kind: those of the token, the quotes, the backslashes, and the white that ended it. */
  predicate Paid(s: seq<Byte>, r: Run, f: Byte -> bool)
    requires r.used <= |s| && (r.stop.AtWhite? ==> r.used > 0)
  {
    Count(s[..r.used], f) == Count(r.out, f) + (if f(DQUOTE) then r.toggles else 0) + (if f(BACKSLASH) then r.escapes else 0)
                             + (if r.stop.AtWhite? then Bit(f(s[r.used - 1])) else 0)
  }

  lemma {:induction false} RunPays(s: seq<Byte>, quoted: bool, f: Byte -> bool)
    ensures RunOf(s, quoted).stop.AtWhite? ==> RunOf(s, quoted).used > 0
    ensures Paid(s, RunOf(s, quoted), f)
    decreases |s|
  {
    match MoveOf(s, quoted)
    case Halt(last) => HaltPays(s, quoted, f);
    case Escape =>
      RunPays(s[2..], quoted, f);
      PaysForEscape(s, RunOf(s[2..], quoted), f);
    case Toggle =>
      RunPays(s[1..], !quoted, f);
      PaysForOne(s, RunOf(s[1..], !quoted), f);
    case Keep =>
      RunPays(s[1..], quoted, f);
      PaysForOne(s, RunOf(s[1..], quoted), f);
  }

  lemma HaltPays(s: seq<Byte>, quoted: bool, f: Byte -> bool)
    requires MoveOf(s, quoted).Halt?
    ensures var r := MoveOf(s, quoted).last; (r.stop.AtWhite? ==> r.used > 0) && Paid(s, r, f)
  {
    var r := MoveOf(s, quoted).last;
    if r.used == 1 { assert s[..1] == [s[0]]; CountOne(s[0], f); }
  }

  lemma PaysForOne(s: seq<Byte>, r: Run, f: Byte -> bool)
    requires s != [] && r.used < |s| && (r.stop.AtWhite? ==> r.used > 0) && Paid(s[1..], r, f)
    ensures Paid(s, AfterKeep(s[0], r), f)
    ensures s[0] == DQUOTE ==> Paid(s, AfterToggle(r), f)
  {
    assert s[..r.used + 1] == [s[0]] + s[1..][..r.used];
    CountCons(s[0], s[1..][..r.used], f);
    CountCons(s[0], r.out, f);
  }

  lemma PaysForEscape(s: seq<Byte>, r: Run, f: Byte -> bool)
    requires |s| >= 2 && s[0] == BACKSLASH && r.used + 2 <= |s| && (r.stop.AtWhite? ==> r.used > 0) && Paid(s[2..], r, f)
    ensures Paid(s, AfterEscape(s[1], r), f)
  {
    assert s[..r.used + 2] == [s[0]] + ([s[1]] + s[2..][..r.used]);
    CountCons(s[0], [s[1]] + s[2..][..r.used], f);
    CountCons(s[1], s[2..][..r.used], f);
    CountCons(s[1], r.out, f);
  }

  /** Where a token stops. */
  predicate Stopped(s: seq<Byte>, r: Run)
    requires r.used <= |s|
  {
    match r.stop
    case AtWhite => r.used > 0 && White(s[r.used - 1])
    case AtNewline => r.used < |s| && s[r.used] == LF
    case AtEnd => r.used == |s|
  }

  lemma {:induction false} RunStops(s: seq<Byte>, quoted: bool)
    ensures Stopped(s, RunOf(s, quoted))
    decreases |s|
  {
    match MoveOf(s, quoted)
    case Halt(last) =>
    case Escape => RunStops(s[2..], quoted);
    case Toggle => RunStops(s[1..], !quoted);
    case Keep => RunStops(s[1..], quoted);
  }

  /** Quotes come in pairs when a token ends at white space. */
  lemma {:induction false} RunPairs(s: seq<Byte>, quoted: bool)
    ensures RunOf(s, quoted).stop.AtWhite? ==> RunOf(s, quoted).toggles % 2 == Bit(quoted)
    decreases |s|
  {
    match MoveOf(s, quoted)
    case Halt(last) =>
    case Escape => RunPairs(s[2..], quoted);
    case Toggle => RunPairs(s[1..], !quoted);
    case Keep => RunPairs(s[1..], quoted);
  }

  /** Special bytes of a token were escaped. */
  lemma {:induction false} RunEscapes(s: seq<Byte>, quoted: bool)
    ensures Count(RunOf(s, quoted).out, Special) <= RunOf(s, quoted).escapes
    decreases |s|
  {
    match MoveOf(s, quoted)
    case Halt(last) =>
    case Escape =>
      RunEscapes(s[2..], quoted);
      CountCons(s[1], RunOf(s[2..], quoted).out, Special);
    case Toggle => RunEscapes(s[1..], !quoted);
    case Keep =>
      RunEscapes(s[1..], quoted);
      CountCons(s[0], RunOf(s[1..], quoted).out, Special);
  }

  /** The token is made of the file's bytes. */
  lemma {:induction false} RunFrom(s: seq<Byte>, quoted: bool, b: Byte)
    requires b in RunOf(s, quoted).out
    ensures b in s
    decreases |s|
  {
    if s[0] == BACKSLASH {
      if b != s[1] { RunFrom(s[2..], quoted, b); assert b in s[2..]; }
    } else if b != s[0] || s[0] == DQUOTE {
      RunFrom(s[1..], if s[0] == DQUOTE then !quoted else quoted, b);
      assert b in s[1..];
    }
  }

  // ---------- where the two tokens of a pair lie ----------

  /** How much white space a file begins with. */
  function Skip(s: seq<Byte>): (k: nat)
    ensures k <= |s| && (k < |s| ==> !White(s[k])) && forall i :: 0 <= i < k ==> White(s[i])
  {
    if s == [] || !White(s[0]) then 0 else 1 + Skip(s[1..])
  }

  lemma {:induction false} SkipLex(s: seq<Byte>)
    ensures Lex(s, Begin, []) == Lex(s[Skip(s)..], Begin, [])
  {
    if s != [] && White(s[0]) {
      SkipLex(s[1..]);
      assert s[1..][Skip(s[1..])..] == s[Skip(s)..];
    }
  }

  /** A file at which a name begins. */
  predicate NameAt(s: seq<Byte>) { s != [] && s != [BACKSLASH] && s[0] != LF && !White(s[0]) }

  lemma FirstToken(s: seq<Byte>)
    requires s == [] || !White(s[0])
    ensures !NameAt(s) ==> Lex(s, Begin, []) == if s != [] && s[0] == LF then (NewLine, s[1..]) else (Done, [])
    ensures NameAt(s) ==> Lex(s, Begin, []) == (Name(RunOf(s, false).out), s[RunOf(s, false).used..])
  {
    if NameAt(s) {
      RunIsLex(s, false, []);
      assert [] + RunOf(s, false).out == RunOf(s, false).out;
    }
  }

  /** From position `b` the alias, from position `m` the font; between them white space only. */
  ghost predicate PairAt(s: seq<Byte>, b: nat, r1: Run, m: nat, r2: Run) {
    && b <= m <= |s| && NameAt(s[b..]) && NameAt(s[m..]) && r1 == RunOf(s[b..], false) && r2 == RunOf(s[m..], false)
    && (b > 0 ==> s[b - 1] == LF || White(s[b - 1]))
    && r1.stop.AtWhite? && b + r1.used <= m && forall i :: b + r1.used <= i < m ==> White(s[i])
  }

  lemma EmptyLine(s: seq<Byte>, rest: seq<Byte>)
    requires Lex(s, Begin, []) == (NewLine, rest)
    ensures NextNames(s) == NextNames(rest)
  {
  }

  lemma NameThen(s: seq<Byte>, alias: seq<Byte>, rest: seq<Byte>, next: Token, rest2: seq<Byte>)
    requires Lex(s, Begin, []) == (Name(alias), rest) && Lex(rest, Begin, []) == (next, rest2)
    ensures match next
            case NewLine => NextNames(s) == NextNames(rest2)
            case Done => NextNames(s).0 == None
            case Name(font) => NextNames(s) == (Some(Names(alias, font)), rest2)
  {
  }

  /** The first token of a file, wherever white space puts it. */
  lemma TokenPlace(s: seq<Byte>, k: nat)
    requires k == Skip(s)
    ensures NameAt(s[k..]) ==> Lex(s, Begin, []) == (Name(RunOf(s[k..], false).out), s[k..][RunOf(s[k..], false).used..])
    ensures !NameAt(s[k..]) && k < |s| && s[k] == LF ==> Lex(s, Begin, []) == (NewLine, s[k + 1..])
    ensures !NameAt(s[k..]) && !(k < |s| && s[k] == LF) ==> Lex(s, Begin, []) == (Done, [])
  {
    SkipLex(s);
    FirstToken(s[k..]);
    if k < |s| { assert s[k..][1..] == s[k + 1..]; }
  }

  /** After white space from `k` on, the token begins at `at` and ends at `e`. */
  ghost predicate TokenAt(s: seq<Byte>, k: nat, t: Token, at: nat, r: Run, e: nat) {
    && k <= at <= |s| && e <= |s|
    && (forall i :: k <= i < at ==> White(s[i]))
    && (t.Name? ==> NameAt(s[at..]) && r == RunOf(s[at..], false) && t.text == r.out && e == at + r.used > at)
    && (t.NewLine? ==> at < |s| && s[at] == LF && e == at + 1)
  }

  /** The token found from `k` on: it begins at `at` and ends at `e`. */
  lemma TokenFrom(s: seq<Byte>, k: nat) returns (t: Token, at: nat, r: Run, e: nat)
    requires k <= |s|
    ensures e <= |s| && Lex(s[k..], Begin, []) == (t, s[e..]) && TokenAt(s, k, t, at, r, e)
  {
    var u := s[k..];
    var n := Skip(u);
    TokenPlace(u, n);
    at := k + n;
    assert u[n..] == s[at..];
    r := RunOf(s[at..], false);
    if NameAt(s[at..]) {
      NameTakes(s[at..]);
      t, e := Name(r.out), at + r.used;
      assert s[at..][r.used..] == s[e..];
    } else if n < |u| && u[n] == LF {
      t, e := NewLine, at + 1;
      assert u[n + 1..] == s[e..];
    } else {
      t, e := Done, |s|;
      assert s[e..] == [];
    }
    forall i | k <= i < at ensures White(s[i]) { assert u[i - k] == s[i]; }
  }

  lemma NameTakes(t: seq<Byte>)
    ensures NameAt(t) ==> RunOf(t, false).used > 0
  {
  }

  /** Two names that follow each other on a line are a pair. */
  lemma PairHere(s: seq<Byte>, k: nat, t1: Token, b: nat, r1: Run, e1: nat, t2: Token, m: nat, r2: Run, e2: nat)
    requires TokenAt(s, k, t1, b, r1, e1) && TokenAt(s, e1, t2, m, r2, e2) && (k > 0 ==> s[k - 1] == LF)
    requires t1.Name? && t2.Name?
    ensures PairAt(s, b, r1, m, r2) && t1.text == r1.out && t2.text == r2.out && m + r2.used == e2
  {
    StopsAtWhite(s, b, r1, e1, m);
  }

  lemma LineEnds(s: seq<Byte>, k: nat, t: Token, at: nat, r: Run, e: nat)
    requires TokenAt(s, k, t, at, r, e) && t.NewLine?
    ensures k < e <= |s| && s[e - 1] == LF
  {
  }

  lemma NameGoesOn(s: seq<Byte>, k: nat, t: Token, at: nat, r: Run, e: nat)
    requires TokenAt(s, k, t, at, r, e) && t.Name?
    ensures k < e <= |s|
  {
  }

  /** One line: it holds a pair, or the next pair is that of a later line. */
  lemma LineFrom(s: seq<Byte>, k: nat) returns (found: bool, b: nat, r1: Run, m: nat, r2: Run, next: nat)
    requires k <= |s| && (k > 0 ==> s[k - 1] == LF) && NextNames(s[k..]).0.Some?
    ensures found ==> PairAt(s, b, r1, m, r2) && NextNames(s[k..]) == (Some(Names(r1.out, r2.out)), s[m + r2.used..])
    ensures !found ==> k < next <= |s| && s[next - 1] == LF && NextNames(s[next..]) == NextNames(s[k..])
  {
    var t1, e1, t2, e2;
    t1, b, r1, e1 := TokenFrom(s, k);
    t2, m, r2, e2 := TokenFrom(s, e1);
    found, next := t1.Name? && t2.Name?, if t1.NewLine? then e1 else e2;
    LineNames(s[k..], t1, s[e1..], t2, s[e2..]);
    if t1.NewLine? {
      LineEnds(s, k, t1, b, r1, e1);
    } else {
      NameGoesOn(s, k, t1, b, r1, e1);
      if found { PairHere(s, k, t1, b, r1, e1, t2, m, r2, e2); } else { LineEnds(s, e1, t2, m, r2, e2); }
    }
  }

  lemma LineNames(s: seq<Byte>, t: Token, rest: seq<Byte>, next: Token, rest2: seq<Byte>)
    requires Lex(s, Begin, []) == (t, rest) && Lex(rest, Begin, []) == (next, rest2)
    ensures t.NewLine? ==> NextNames(s) == NextNames(rest)
    ensures t.Done? || (t.Name? && next.Done?) ==> NextNames(s).0 == None
    ensures t.Name? && next.NewLine? ==> NextNames(s) == NextNames(rest2)
    ensures t.Name? && next.Name? ==> NextNames(s) == (Some(Names(t.text, next.text)), rest2)
  {
  }

  /** Every pair read from a line on lies somewhere as PairAt says. */
  lemma {:induction false} PairFrom(s: seq<Byte>, k: nat) returns (b: nat, r1: Run, m: nat, r2: Run)
    requires k <= |s| && (k > 0 ==> s[k - 1] == LF) && NextNames(s[k..]).0.Some?
    ensures PairAt(s, b, r1, m, r2) && NextNames(s[k..]) == (Some(Names(r1.out, r2.out)), s[m + r2.used..])
    decreases |s| - k
  {
    var found, next;
    found, b, r1, m, r2, next := LineFrom(s, k);
    if !found { b, r1, m, r2 := PairFrom(s, next); }
  }

  /** A name that another follows on its line ended at white space. */
  lemma StopsAtWhite(s: seq<Byte>, at: nat, r: Run, e: nat, next: nat)
    requires at <= |s| && r == RunOf(s[at..], false) && e == at + r.used <= next <= |s| && NameAt(s[next..])
    requires forall i :: e <= i < next ==> White(s[i])
    ensures r.stop.AtWhite?
  {
    RunStops(s[at..], false);
    assert s[at..][r.used] == s[e];
  }

  // ---------- the account of a whole pair ----------

  lemma Slice(s: seq<Byte>, i: nat, j: nat, f: Byte -> bool)
    requires i <= j <= |s|
    ensures Count(s[i..], f) == Count(s[i..j], f) + Count(s[j..], f)
  {
    assert s[i..] == s[i..j] + s[j..];
    CountAppend(s[i..j], s[j..], f);
  }

  /** A file cut at four places. */
  lemma Pieces(s: seq<Byte>, b: nat, i: nat, m: nat, j: nat, f: Byte -> bool)
    requires b <= i <= m <= j <= |s|
    ensures Count(s, f) == Count(s[..b], f) + Count(s[b..i], f) + Count(s[i..m], f) + Count(s[m..j], f) + Count(s[j..], f)
  {
    CutAt(s, b, |s|, f);
    Slice(s, b, i, f);
    Slice(s, i, m, f);
    Slice(s, m, j, f);
  }

  lemma CutAt(s: seq<Byte>, k: nat, n: nat, f: Byte -> bool)
    requires k <= |s| == n
    ensures Count(s, f) == Count(s[..k], f) + Count(s[k..], f)
  {
    assert s == s[..k] + s[k..];
    CountAppend(s[..k], s[k..], f);
  }

  lemma CountPrefix(a: seq<Byte>, s: seq<Byte>, f: Byte -> bool)
    requires a <= s
    ensures Count(a, f) <= Count(s, f)
  {
    assert a == s[..|a|];
    CutAt(s, |a|, |s|, f);
  }

  lemma {:induction false} CountWhite(s: seq<Byte>, n: nat)
    requires n <= |s| && forall i :: 0 <= i < n ==> White(s[i])
    ensures CountTo(s, Plain, n) == n
  {
    if n > 0 { CountWhite(s, n - 1); }
  }

  /** The bytes a token took, by kind. */
  predicate Bill(u: seq<Byte>, r: Run) {
    && |u| == |r.out| + r.toggles + r.escapes + Bit(r.stop.AtWhite?)
    && Count(u, Plain) == Count(r.out, Plain) + Bit(r.stop.AtWhite?)
    && Count(u, Quote) == Count(r.out, Quote) + r.toggles
    && Count(u, Newline) == Count(r.out, Newline)
    && Count(r.out, Special) <= r.escapes
  }

  /** All that matters of a token that begins at `at`. */
  ghost predicate Account(s: seq<Byte>, at: nat, r: Run) {
    && at + r.used <= |s| && Bill(s[at..at + r.used], r)
    && (forall b :: b in r.out ==> b in s)
    && (r.toggles == 0 && r.escapes == 0 ==> forall b :: b in r.out ==> !White(b))
    && match r.stop
       case AtWhite => r.used > 0 && White(s[at + r.used - 1]) && r.toggles % 2 == 0
       case AtNewline => at + r.used < |s| && s[at + r.used] == LF
       case AtEnd => at + r.used == |s|
  }

  predicate Any(b: Byte) { true }

  lemma {:induction false} CountAny(s: seq<Byte>, n: nat)
    requires n <= |s|
    ensures CountTo(s, Any, n) == n
  {
    if n > 0 { CountAny(s, n - 1); }
  }

  lemma BillOf(t: seq<Byte>, r: Run)
    requires r == RunOf(t, false)
    ensures Bill(t[..r.used], r)
  {
    RunStops(t, false);
    RunEscapes(t, false);
    RunPays(t, false, Any);
    RunPays(t, false, Plain);
    RunPays(t, false, Quote);
    RunPays(t, false, Newline);
    CountAny(t[..r.used], r.used);
    CountAny(r.out, |r.out|);
  }

  lemma AccountOf(s: seq<Byte>, at: nat, t: seq<Byte>, r: Run)
    requires at <= |s| && t == s[at..] && r == RunOf(t, false)
    ensures Account(s, at, r)
  {
    RunStops(t, false);
    RunPairs(t, false);
    BillOf(t, r);
    assert t[..r.used] == s[at..at + r.used];
    forall b | b in r.out ensures b in s { RunFrom(t, false, b); }
    RunBare(t);
  }

  /** White space gets into a token by a quote or a backslash only. */
  lemma {:induction false} RunBare(s: seq<Byte>)
    ensures var r := RunOf(s, false); r.toggles == 0 && r.escapes == 0 ==> forall b :: b in r.out ==> !White(b)
    decreases |s|
  {
    if MoveOf(s, false).Keep? { RunBare(s[1..]); }
  }

  /** Where the two tokens lie. */
  ghost predicate Placed(s: seq<Byte>, b: nat, r1: Run, m: nat, r2: Run) {
    && b < |s| && !White(s[b]) && m < |s| && !White(s[m]) && b + r1.used <= m && m + r2.used <= |s| && r1.stop.AtWhite?
    && (forall i :: b + r1.used <= i < m ==> White(s[i]))
    && (b > 0 ==> s[b - 1] == LF || White(s[b - 1]))
    && (s[b] == DQUOTE ==> r1.toggles > 0)
    && (s[m] == DQUOTE ==> r2.toggles > 0)
  }

  lemma FirstQuote(t: seq<Byte>, b: Byte)
    requires t != [] && t[0] == b
    ensures b == DQUOTE ==> RunOf(t, false).toggles > 0
  {
  }

  lemma PlacedOf(s: seq<Byte>, b: nat, r1: Run, m: nat, r2: Run)
    requires PairAt(s, b, r1, m, r2)
    ensures Placed(s, b, r1, m, r2)
  {
    FirstQuote(s[b..], s[b]);
    FirstQuote(s[m..], s[m]);
  }

  /** The pair a file yields, by the accounts of its two tokens. */
  ghost predicate Accounts(s: seq<Byte>, b: nat, r1: Run, m: nat, r2: Run) {
    Account(s, b, r1) && Account(s, m, r2) && Placed(s, b, r1, m, r2)
  }

  lemma PairAccounts(s: seq<Byte>) returns (b: nat, r1: Run, m: nat, r2: Run)
    requires !ReadPair(s).0.Closed?
    ensures Accounts(s, b, r1, m, r2) && ReadPair(s) == (Copied(Names(r1.out, r2.out)), s[m + r2.used..])
  {
    assert s[0..] == s;
    b, r1, m, r2 := PairFrom(s, 0);
    PlacedOf(s, b, r1, m, r2);
    AccountOf(s, b, s[b..], r1);
    AccountOf(s, m, s[m..], r2);
  }

  lemma PlainPieces(s: seq<Byte>, b: nat, i: nat, m: nat, j: nat, n1: nat, n2: nat)
    requires b <= i <= m <= j <= |s| && forall k :: i <= k < m ==> White(s[k])
    requires Count(s[b..i], Plain) == n1 && Count(s[m..j], Plain) == n2
    ensures Count(s, Plain) == Count(s[..b], Plain) + n1 + (m - i) + n2 + Count(s[j..], Plain)
  {
    Pieces(s, b, i, m, j, Plain);
    CountWhite(s[i..m], m - i);
  }

  /** The ordinary bytes of a file that yields a pair. */
  lemma PlainBill(s: seq<Byte>, b: nat, r1: Run, m: nat, r2: Run)
    requires Accounts(s, b, r1, m, r2)
    ensures Count(s, Plain) == Count(s[..b], Plain) + Count(r1.out, Plain) + 1 + (m - b - r1.used)
                               + Count(r2.out, Plain) + Bit(r2.stop.AtWhite?) + Count(s[m + r2.used..], Plain)
  {
    PlainPieces(s, b, b + r1.used, m, m + r2.used, Count(r1.out, Plain) + 1, Count(r2.out, Plain) + Bit(r2.stop.AtWhite?));
  }

  function Need(p: Pair): nat { Count(p.alias, Plain) + Count(p.font, Plain) + 1 }

  lemma LoweredKeepsPlain()
    ensures forall b :: Plain(ToLower(b)) == Plain(b)
    ensures forall b :: Quote(ToLower(b)) == Quote(b)
    ensures forall b :: Newline(ToLower(b)) == Newline(b)
    ensures forall b :: Special(ToLower(b)) == Special(b)
    ensures forall b :: ToLower(b) == NUL <==> b == NUL
  {
  }

  /** A name has no more ordinary bytes than its token. */
  lemma NameNeeds(out: seq<Byte>)
    ensures Count(Lowered(Truncated(CString(out))), Plain) <= Count(out, Plain)
    ensures Count(Lowered(CString(out)), Plain) <= Count(out, Plain)
  {
    LoweredKeepsPlain();
    CountLowered(Truncated(CString(out)), Plain);
    CountLowered(CString(out), Plain);
    CountPrefix(CString(out), out, Plain);
    CountPrefix(Truncated(CString(out)), CString(out), Plain);
  }

  /** Reading a pair uses up the ordinary bytes of its names, and one more between them. */
  lemma PairNeeds(s: seq<Byte>)
    requires ReadPair(s).0.Got?
    ensures Need(ReadPair(s).0.pair) + Count(ReadPair(s).1, Plain) <= Count(s, Plain)
  {
    var b, r1, m, r2 := PairAccounts(s);
    PlainBill(s, b, r1, m, r2);
    NameNeeds(r1.out);
    NameNeeds(r2.out);
  }

  // ---------- only printable pairs read back ----------

  function NameOf(p: Pair): seq<Byte> { if SPACE in p.alias then InQuotes(p.alias) else p.alias }

  /** How the bytes of a printed pair count. */
  lemma PrintCounts(p: Pair, f: Byte -> bool)
    ensures Count(NameOf(p), f) == Count(p.alias, f) + if SPACE in p.alias then 2 * Bit(f(DQUOTE)) else 0
    ensures Count(InQuotes(p.font) + [LF], f) == Count(p.font, f) + 2 * Bit(f(DQUOTE)) + Bit(f(LF))
  {
    QuotedCounts(p.alias, f);
    QuotedCounts(p.font, f);
    CountAppend(InQuotes(p.font), [LF], f);
    CountOne(LF, f);
  }

  lemma QuotedCounts(s: seq<Byte>, f: Byte -> bool)
    ensures Count(InQuotes(s), f) == Count(s, f) + 2 * Bit(f(DQUOTE))
  {
    CountAppend([DQUOTE] + s, [DQUOTE], f);
    CountCons(DQUOTE, s, f);
    CountOne(DQUOTE, f);
  }

  lemma PlainOfPrint(p: Pair)
    ensures Print(p) == NameOf(p) + ([TAB] + (InQuotes(p.font) + [LF]))
    ensures Count(Print(p), Plain) == Count(p.alias, Plain) + 1 + Count(p.font, Plain)
  {
    var tail := InQuotes(p.font) + [LF];
    assert Print(p) == NameOf(p) + ([TAB] + tail);
    PrintCounts(p, Plain);
    CountAppend(NameOf(p), [TAB] + tail, Plain);
    CountCons(TAB, tail, Plain);
  }

  /** The tokens are the names, but for case and length. */
  lemma TokensAreNames(p: Pair, out1: seq<Byte>, out2: seq<Byte>)
    requires Copied(Names(out1, out2)) == Got(p)
    requires forall b :: b in out1 || b in out2 ==> b in Print(p)
    ensures p.alias == Lowered(Truncated(out1)) && p.font == Lowered(out2) && |out2| < MAXFONTNAMELEN
  {
    LoweredKeepsPlain();
    assert NUL !in p.alias && NUL !in p.font;
    assert NUL !in NameOf(p) && NUL !in InQuotes(p.font);
    assert NUL !in Print(p);
  }

  /** What the counts leave room for: no ordinary byte is lost but the one between the tokens. */
  lemma Tight(p: Pair, b: nat, r1: Run, m: nat, r2: Run)
    requires Accounts(Print(p), b, r1, m, r2)
    requires p.alias == Lowered(Truncated(r1.out)) && p.font == Lowered(r2.out)
    ensures m == b + r1.used && Count(Print(p)[..b], Plain) == 0 && Count(Print(p)[m + r2.used..], Plain) == 0
    ensures Count(r1.out, Plain) == Count(p.alias, Plain) && !r2.stop.AtWhite?
  {
    PlainOfPrint(p);
    PlainBill(Print(p), b, r1, m, r2);
    LoweredKeepsPlain();
    CountLowered(Truncated(r1.out), Plain);
    CountLowered(r2.out, Plain);
    CountPrefix(Truncated(r1.out), r1.out, Plain);
  }

  /** The n-th ordinary byte is in one place only. */
  lemma {:induction false} SamePlace(s: seq<Byte>, i: nat, j: nat)
    requires i < j <= |s| && j > 0 && Plain(s[j - 1])
    ensures CountTo(s, Plain, i) < CountTo(s, Plain, j)
  {
    CountGrows(s, i, j - 1);
  }

  lemma {:induction false} CountGrows(s: seq<Byte>, i: nat, j: nat)
    requires i <= j <= |s|
    ensures CountTo(s, Plain, i) <= CountTo(s, Plain, j)
  {
    if i < j { CountGrows(s, i, j - 1); }
  }

  /** How many ordinary bytes there are up to the end of the first token. */
  lemma CountedToToken(s: seq<Byte>, b: nat, i: nat, n: nat)
    requires b <= i <= |s| && Count(s[..b], Plain) == 0 && Count(s[b..i], Plain) == n
    ensures CountTo(s, Plain, i) == n
  {
    assert s[..i] == s[..b] + s[b..i];
    CountAppend(s[..b], s[b..i], Plain);
    SameStart(s[..i], s, Plain, i);
  }

  lemma CountedToTab(p: Pair)
    ensures CountTo(Print(p), Plain, |NameOf(p)| + 1) == Count(p.alias, Plain) + 1
  {
    var s, j := Print(p), |NameOf(p)| + 1;
    PlainOfPrint(p);
    PrintCounts(p, Plain);
    assert s[..j] == NameOf(p) + [TAB];
    CountAppend(NameOf(p), [TAB], Plain);
    CountOne(TAB, Plain);
    SameStart(s[..j], s, Plain, j);
  }

  /** The byte that ended the alias is the tab that was printed after it. */
  lemma SeparatorFound(p: Pair, b: nat, r1: Run)
    requires Account(Print(p), b, r1) && r1.stop.AtWhite? && Count(Print(p)[..b], Plain) == 0
    requires Count(r1.out, Plain) == Count(p.alias, Plain)
    ensures b + r1.used == |NameOf(p)| + 1
  {
    var s, i, j := Print(p), b + r1.used, |NameOf(p)| + 1;
    CountedToToken(s, b, i, Count(p.alias, Plain) + 1);
    CountedToTab(p);
    PlainOfPrint(p);
    assert s[j - 1] == TAB;
    if i < j { SamePlace(s, i, j); } else if j < i { SamePlace(s, j, i); }
  }

  /** The alias's token starts with the file, and nothing in it was escaped. */
  lemma AliasVerbatim(p: Pair, b: nat, r1: Run, m: nat, r2: Run)
    requires Accounts(Print(p), b, r1, m, r2) && Count(Print(p)[..b], Plain) == 0
    requires p.alias == Lowered(Truncated(r1.out)) && b + r1.used == |NameOf(p)| + 1
    ensures b == 0 && r1.escapes == 0 && |r1.out| == |p.alias| && (SPACE !in p.alias ==> r1.toggles == 0)
  {
    var s := Print(p);
    PlainOfPrint(p);
    if b > 0 {
      assert SPACE in p.alias && s[0] == DQUOTE;
      LastNotPlain(s[..b], b);
      assert s[b - 1] == LF;
      if b == 2 {
        assert |r1.out| == |p.alias| ==> Truncated(r1.out) == r1.out;
        QuoteMissing(p, r1);
      }
    }
  }

  lemma LastNotPlain(s: seq<Byte>, n: nat)
    requires n == |s| > 0 && Count(s, Plain) == 0
    ensures !Plain(s[n - 1])
  {
  }

  /** A token that begins after an opening quote and takes no quote cannot be followed by the closing one. */
  lemma QuoteMissing(p: Pair, r1: Run)
    requires SPACE in p.alias && |Print(p)| >= 2 + r1.used && Print(p)[1] == LF
    requires 2 + r1.used == |NameOf(p)| + 1 && Bill(Print(p)[2..2 + r1.used], r1)
    ensures p.alias == Lowered(r1.out) ==> r1.toggles > 0
  {
    var s, u := Print(p), Print(p)[2..2 + r1.used];
    PlainOfPrint(p);
    PrintCounts(p, Quote);
    assert NameOf(p) + [TAB] == [DQUOTE, LF] + u;
    CountAppend(NameOf(p), [TAB], Quote);
    CountAppend([DQUOTE, LF], u, Quote);
    assert [DQUOTE, LF] == [DQUOTE] + [LF];
    CountCons(DQUOTE, [LF], Quote);
    CountOne(LF, Quote);
    CountOne(TAB, Quote);
    LoweredKeepsPlain();
    CountLowered(r1.out, Quote);
  }

  /** The file from the font on, cut in two. */
  lemma FontCut(p: Pair, j: nat)
    requires |NameOf(p)| + 1 <= j <= |Print(p)|
    ensures InQuotes(p.font) + [LF] == Print(p)[|NameOf(p)| + 1..j] + Print(p)[j..]
  {
    PlainOfPrint(p);
  }

  /** The quotes and the newline printed for the font leave no room for a backslash. */
  lemma FontBill(p: Pair, u: seq<Byte>, post: seq<Byte>, r2: Run)
    requires InQuotes(p.font) + [LF] == u + post && Bill(u, r2) && !r2.stop.AtWhite?
    requires p.font == Lowered(r2.out) && Count(post, Plain) == 0
    ensures r2.escapes == 0
  {
    PrintCounts(p, Quote);
    PrintCounts(p, Newline);
    CountAppend(u, post, Quote);
    CountAppend(u, post, Newline);
    LoweredKeepsPlain();
    CountLowered(r2.out, Quote);
    CountLowered(r2.out, Newline);
    Disjoint(post, |post|);
    assert |u| + |post| == |p.font| + 3;
  }

  /** Nothing in the font's token was escaped. */
  lemma FontVerbatim(p: Pair, m: nat, r2: Run)
    requires m == |NameOf(p)| + 1 && Account(Print(p), m, r2) && !r2.stop.AtWhite?
    requires p.font == Lowered(r2.out) && Count(Print(p)[m + r2.used..], Plain) == 0
    ensures r2.escapes == 0
  {
    FontCut(p, m + r2.used);
    FontBill(p, Print(p)[m..m + r2.used], Print(p)[m + r2.used..], r2);
  }

  lemma {:induction false} Disjoint(s: seq<Byte>, n: nat)
    requires n <= |s|
    ensures CountTo(s, Quote, n) + CountTo(s, Newline, n) <= n
  {
    if n > 0 { Disjoint(s, n - 1); }
  }

  /** A name without special bytes that is lower-cased from a token is plain text. */
  lemma NameIsPlain(name: seq<Byte>, out: seq<Byte>)
    requires name == Lowered(out) && Count(out, Special) == 0 && NUL !in name
    ensures PlainText(name)
  {
    CountZero(out, Special, |out|);
    LoweredKeepsPlain();
    forall b | b in name ensures b != NUL && b != DQUOTE && b != BACKSLASH && b != LF && ToLower(b) == b {
      var i :| 0 <= i < |name| && name[i] == b;
      assert !Special(out[i]);
      LowerTwice(out[i]);
    }
  }

  lemma AliasPrintable(p: Pair, b: nat, r1: Run, m: nat, r2: Run)
    requires Accounts(Print(p), b, r1, m, r2) && Count(Print(p)[..b], Plain) == 0
    requires p.alias == Lowered(Truncated(r1.out)) && b + r1.used == |NameOf(p)| + 1 && NUL !in p.alias
    ensures PlainText(p.alias) && p.alias != [] && (TAB in p.alias ==> SPACE in p.alias) && |p.alias| < MAXFONTNAMELEN
  {
    AliasVerbatim(p, b, r1, m, r2);
    assert Truncated(r1.out) == r1.out;
    NameIsPlain(p.alias, r1.out);
    BareAlias(p, r1);
    PlainOfPrint(p);
  }

  /** A pair that is read back is printable. */
  lemma OnlyPrintable(p: Pair)
    requires ReadPair(Print(p)).0 == Got(p)
    ensures Printable(p)
  {
    var b, r1, m, r2 := PairAccounts(Print(p));
    TokensAreNames(p, r1.out, r2.out);
    Tight(p, b, r1, m, r2);
    SeparatorFound(p, b, r1);
    NamesHaveNoNul(p, r1.out, r2.out);
    AliasPrintable(p, b, r1, m, r2);
    FontVerbatim(p, m, r2);
    NameIsPlain(p.font, r2.out);
  }

  lemma NamesHaveNoNul(p: Pair, out1: seq<Byte>, out2: seq<Byte>)
    requires Copied(Names(out1, out2)) == Got(p)
    ensures NUL !in p.alias && NUL !in p.font
  {
    LoweredKeepsPlain();
  }

  lemma BareAlias(p: Pair, r1: Run)
    requires p.alias == Lowered(r1.out) && r1.escapes == 0 && (SPACE !in p.alias ==> r1.toggles == 0)
    requires r1.toggles == 0 && r1.escapes == 0 ==> forall b :: b in r1.out ==> !White(b)
    ensures TAB in p.alias ==> SPACE in p.alias
  {
    if TAB in p.alias {
      var i :| 0 <= i < |p.alias| && p.alias[i] == TAB;
      assert r1.out[i] in r1.out && r1.out[i] == TAB;
    }
  }

  /** A pair comes back from its printed line exactly when it is printable. */
  lemma ReadsBackIff(p: Pair)
    ensures ReadAll(Print(p)) == [p] <==> Printable(p)
    ensures Printable(p) ==> !Overruns(Print(p))
  {
    if ReadAll(Print(p)) == [p] { OnlyPrintable(p); }
    if Printable(p) {
      RoundTrip([p]);
      assert PrintAll([p]) == Print(p) + PrintAll([]) == Print(p);
    }
  }
}
