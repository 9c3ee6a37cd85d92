/**
 installalias.c: what holds of one printed pair holds of a whole printed file, since the
 newline that ends a line is always read as one.
 */
module AliasLists {
  import opened Options
  import opened AliasText
  import opened AliasExact

  /** Text after which a newline is read as a newline. */
  predicate Open(x: seq<Byte>) { x == [] || x[|x| - 1] != BACKSLASH }

  /** A token does not reach over the newline at the end of its line. */
  lemma {:induction false} RunInLine(x: seq<Byte>, tail: seq<Byte>, quoted: bool)
    requires Open(x)
    ensures RunOf(x + [LF] + tail, quoted) == RunOf(x + [LF], quoted)
    ensures RunOf(x + [LF], quoted).used <= |x|
    decreases |x|
  {
    var s := x + [LF];
    if x != [] {
      assert (s + tail)[1..] == x[1..] + [LF] + tail && s[1..] == x[1..] + [LF];
      match MoveOf(s, quoted)
      case Halt(last) =>
      case Escape =>
        assert (s + tail)[2..] == x[2..] + [LF] + tail && s[2..] == x[2..] + [LF];
        RunInLine(x[2..], tail, quoted);
      case Toggle => RunInLine(x[1..], tail, !quoted);
      case Keep => RunInLine(x[1..], tail, quoted);
    }
  }

  lemma {:induction false} SkipInLine(x: seq<Byte>, tail: seq<Byte>)
    ensures Skip(x + [LF] + tail) == Skip(x + [LF]) <= |x|
  {
    if x != [] && White(x[0]) {
      assert (x + [LF] + tail)[1..] == x[1..] + [LF] + tail && (x + [LF])[1..] == x[1..] + [LF];
      SkipInLine(x[1..], tail);
    }
  }

  /** The first token of a line is the same whatever follows the line; `e` is where it ends. */
  lemma TokenInLine(x: seq<Byte>, tail: seq<Byte>) returns (t: Token, e: nat)
    requires Open(x)
    ensures 0 < e <= |x| + 1 && !t.Done? && (t.Name? ==> e <= |x|)
    ensures Lex(x + [LF], Begin, []) == (t, (x + [LF])[e..])
    ensures Lex(x + [LF] + tail, Begin, []) == (t, (x + [LF])[e..] + tail)
  {
    var s := x + [LF];
    var k := Skip(s);
    SkipInLine(x, tail);
    assert s[k..] == x[k..] + [LF] && (s + tail)[k..] == x[k..] + [LF] + tail;
    if NameAt(s[k..]) {
      t, e := NameInLine(x, tail, k);
    } else {
      TokenPlace(s, k);
      TokenPlace(s + tail, k);
      t, e := NewLine, k + 1;
      assert (s + tail)[e..] == s[e..] + tail;
    }
  }

  lemma NameInLine(x: seq<Byte>, tail: seq<Byte>, k: nat) returns (t: Token, e: nat)
    requires Open(x) && k <= |x| && k == Skip(x + [LF]) == Skip(x + [LF] + tail) && NameAt((x + [LF])[k..])
    ensures 0 < e <= |x| && t.Name?
    ensures Lex(x + [LF], Begin, []) == (t, (x + [LF])[e..])
    ensures Lex(x + [LF] + tail, Begin, []) == (t, (x + [LF])[e..] + tail)
  {
    var s := x + [LF];
    TokenPlace(s, k);
    TokenPlace(s + tail, k);
    var r := SameRun(x, tail, k);
    t, e := Name(r.out), k + r.used;
    assert s[k..][r.used..] == s[e..] && (s + tail)[k..][r.used..] == s[e..] + tail;
  }

  lemma SameRun(x: seq<Byte>, tail: seq<Byte>, k: nat) returns (r: Run)
    requires Open(x) && k <= |x| && NameAt((x + [LF])[k..])
    ensures r == RunOf((x + [LF])[k..], false) == RunOf((x + [LF] + tail)[k..], false)
    ensures 0 < r.used && k + r.used <= |x| && NameAt((x + [LF] + tail)[k..])
  {
    var s := x + [LF];
    assert s[k..] == x[k..] + [LF] && (s + tail)[k..] == x[k..] + [LF] + tail;
    RunInLine(x[k..], tail, false);
    r := RunOf(s[k..], false);
    NameTakes(s[k..]);
  }

  /** A line's next pair, which ends at `e`, is the same whatever follows; without one, the next pair is that of what follows. */
  ghost predicate SamePair(x: seq<Byte>, tail: seq<Byte>, e: nat) {
    var (n, rest) := NextNames(x + [LF]);
    if n == None then NextNames(x + [LF] + tail) == NextNames(tail)
    else 0 < e <= |x| && rest == x[e..] + [LF] && NextNames(x + [LF] + tail) == (n, x[e..] + [LF] + tail)
  }

  lemma {:induction false} NamesInLine(x: seq<Byte>, tail: seq<Byte>) returns (e: nat)
    requires Open(x)
    ensures SamePair(x, tail, e)
    decreases |x|, 2
  {
    var s := x + [LF];
    var t, e1 := TokenInLine(x, tail);
    if t.NewLine? {
      EmptyLine(s, s[e1..]);
      EmptyLine(s + tail, s[e1..] + tail);
      e := AfterNewline(x, tail, e1);
    } else {
      e := AfterName(x, tail, t, e1);
    }
  }

  lemma FoundHere(x: seq<Byte>, tail: seq<Byte>, n: Names, e: nat)
    requires 0 < e <= |x| && NextNames(x + [LF]) == (Some(n), (x + [LF])[e..])
    requires NextNames(x + [LF] + tail) == (Some(n), (x + [LF])[e..] + tail)
    ensures SamePair(x, tail, e)
  {
    assert (x + [LF])[e..] == x[e..] + [LF];
  }

  /** From a name on. */
  lemma AfterName(x: seq<Byte>, tail: seq<Byte>, t: Token, k: nat) returns (e: nat)
    requires Open(x) && 0 < k <= |x| && t.Name?
    requires Lex(x + [LF], Begin, []) == (t, (x + [LF])[k..]) && Lex(x + [LF] + tail, Begin, []) == (t, (x + [LF])[k..] + tail)
    ensures SamePair(x, tail, e)
    decreases |x|, 1
  {
    var s, y := x + [LF], x[k..];
    assert s[k..] == y + [LF] && s[k..] + tail == y + [LF] + tail;
    var t2, e2 := TokenInLine(y, tail);
    var rest := (y + [LF])[e2..];
    NameThen(s, t.text, y + [LF], t2, rest);
    NameThen(s + tail, t.text, y + [LF] + tail, t2, rest + tail);
    assert rest == s[k + e2..];
    e := k + e2;
    if t2.NewLine? {
      e := AfterNewline(x, tail, k + e2);
    } else {
      FoundHere(x, tail, Names(t.text, t2.text), e);
    }
  }

  /** From a newline on, the line's last or an earlier one. */
  lemma AfterNewline(x: seq<Byte>, tail: seq<Byte>, k: nat) returns (e: nat)
    requires Open(x) && 0 < k <= |x| + 1
    requires NextNames(x + [LF]) == NextNames((x + [LF])[k..])
    requires NextNames(x + [LF] + tail) == NextNames((x + [LF])[k..] + tail)
    ensures SamePair(x, tail, e)
    decreases |x|, 0
  {
    var rest := (x + [LF])[k..];
    e := 0;
    if k == |x| + 1 {
      assert rest == [] && rest + tail == tail;
    } else {
      var y := x[k..];
      assert rest == y + [LF] && rest + tail == y + [LF] + tail;
      var e' := NamesInLine(y, tail);
      e := k + e';
      if NextNames(rest).0.Some? { assert y[e'..] == x[e..]; }
    }
  }

  /** Reading on after the two names found first. */
  lemma ReadOne(s: seq<Byte>, n: Names, rest: seq<Byte>)
    requires NextNames(s) == (Some(n), rest)
    ensures Copied(n).Got? ==> ReadAll(s) == [Copied(n).pair] + ReadAll(rest) && Overruns(s) == Overruns(rest)
    ensures !Copied(n).Got? ==> ReadAll(s) == [] && Overruns(s)
  {
  }

  lemma ReadNone(s: seq<Byte>)
    requires NextNames(s).0 == None
    ensures ReadAll(s) == [] && !Overruns(s)
  {
  }

  lemma ReadSame(s: seq<Byte>, t: seq<Byte>)
    requires NextNames(s) == NextNames(t)
    ensures ReadAll(s) == ReadAll(t) && Overruns(s) == Overruns(t)
  {
    assert ReadPair(s) == ReadPair(t);
  }

  lemma OneMoreRead(p: Pair, line: seq<Pair>, all: seq<Pair>, more: seq<Pair>)
    requires all == line + more
    ensures [p] + all == [p] + line + more
  {
  }

  /** Reading a line and what follows is reading the line and then what follows, unless the line overruns. */
  lemma {:induction false} ReadInLine(x: seq<Byte>, tail: seq<Byte>)
    requires Open(x)
    ensures ReadAll(x + [LF] + tail) == ReadAll(x + [LF]) + if Overruns(x + [LF]) then [] else ReadAll(tail)
    ensures Overruns(x + [LF] + tail) <==> Overruns(x + [LF]) || Overruns(tail)
    decreases |x|
  {
    var e := NamesInLine(x, tail);
    var n := NextNames(x + [LF]).0;
    if n == None {
      ReadNone(x + [LF]);
      ReadSame(x + [LF] + tail, tail);
    } else {
      ReadOne(x + [LF], n.value, x[e..] + [LF]);
      ReadOne(x + [LF] + tail, n.value, x[e..] + [LF] + tail);
      if Copied(n.value).Got? {
        ReadInLine(x[e..], tail);
        OneMoreRead(Copied(n.value).pair, ReadAll(x[e..] + [LF]), ReadAll(x[e..] + [LF] + tail),
                    if Overruns(x[e..] + [LF]) then [] else ReadAll(tail));
      }
    }
  }

  // ---------- whole files ----------

  function NeedAll(ps: seq<Pair>): nat { if ps == [] then 0 else Need(ps[0]) + NeedAll(ps[1..]) }

  lemma {:induction false} NeedAppend(a: seq<Pair>, b: seq<Pair>)
    ensures NeedAll(a + b) == NeedAll(a) + NeedAll(b)
  {
    if a == [] {
      assert a + b == b;
    } else {
      assert (a + b)[1..] == a[1..] + b;
      NeedAppend(a[1..], b);
    }
  }

  /** All that is read of a file is paid for by its ordinary bytes. */
  lemma {:induction false} AllNeed(s: seq<Byte>)
    ensures NeedAll(ReadAll(s)) <= Count(s, Plain)
    decreases |s|
  {
    var (r, rest) := ReadPair(s);
    if r.Got? {
      PairNeeds(s);
      AllNeed(rest);
      assert ReadAll(s)[1..] == ReadAll(rest);
    }
  }

  /** A printed file has just the ordinary bytes its pairs need. */
  lemma {:induction false} PrintNeeds(ps: seq<Pair>)
    ensures Count(PrintAll(ps), Plain) == NeedAll(ps)
  {
    if ps != [] {
      PrintNeeds(ps[1..]);
      PlainOfPrint(ps[0]);
      CountAppend(Print(ps[0]), PrintAll(ps[1..]), Plain);
    }
  }

  function LineOf(p: Pair): (x: seq<Byte>)
    ensures Open(x) && Print(p) == x + [LF]
  {
    (if SPACE in p.alias then InQuotes(p.alias) else p.alias) + [TAB] + InQuotes(p.font)
  }

  lemma NoneNeeded(ps: seq<Pair>)
    ensures NeedAll(ps) == 0 <==> ps == []
  {
  }

  /** A line that yields the beginning of a list its own pair begins yields just that pair. */
  lemma FirstLineYields(ps: seq<Pair>, x: seq<Pair>, y: seq<Pair>)
    requires ps != [] && x + y == ps && NeedAll(x) <= Need(ps[0]) && NeedAll(y) <= NeedAll(ps[1..])
    ensures x == [ps[0]] && y == ps[1..]
  {
    NeedAppend(x, y);
    assert NeedAll(ps) == Need(ps[0]) + NeedAll(ps[1..]);
    if x != [] {
      assert x[0] == ps[0];
      NoneNeeded(x[1..]);
    }
  }

  /** A printed file is read back as the same pairs exactly when every one of them is printable. */
  lemma {:induction false} RoundTripIff(ps: seq<Pair>)
    ensures ReadAll(PrintAll(ps)) == ps <==> forall p :: p in ps ==> Printable(p)
  {
    if forall p :: p in ps ==> Printable(p) {
      RoundTrip(ps);
    } else if ReadAll(PrintAll(ps)) == ps {
      OnlyPrintables(ps);
    }
  }

  lemma {:induction false} OnlyPrintables(ps: seq<Pair>)
    requires ReadAll(PrintAll(ps)) == ps
    ensures forall p :: p in ps ==> Printable(p)
  {
    if ps != [] {
      var line, rest := LineOf(ps[0]), PrintAll(ps[1..]);
      var x, y := ReadAll(line + [LF]), if Overruns(line + [LF]) then [] else ReadAll(rest);
      ReadInLine(line, rest);
      AllNeed(line + [LF]);
      AllNeed(rest);
      PrintNeeds(ps[1..]);
      PlainOfPrint(ps[0]);
      FirstLineYields(ps, x, y);
      ReadsBackIff(ps[0]);
      if |ps| > 1 { OnlyPrintables(ps[1..]); }
      assert ps == [ps[0]] + ps[1..];
    }
  }
}
