/**
 installalias.c, the values: the tokens of an alias file, the pairs they make, and the text
 that is printed for them, which reads back as the same pairs.
 */
module AliasText {
  import opened Options

  type Byte = b: int | 0 <= b < 256

  const NUL: Byte := 0
  const TAB: Byte := 9
  const LF: Byte := 10
  const SPACE: Byte := 32
  const DQUOTE: Byte := 34
  const BACKSLASH: Byte := 92

  datatype CharClass = QUOTE | WHITE | NORMAL | END | NL
  datatype LexState = Begin | Normal | Quoted
  datatype Token = Name(text: seq<Byte>) | NewLine | Done

  /** lexc: the next character, its class, and what is left of the file. */
  function Lexc(s: seq<Byte>): (r: (CharClass, Byte, seq<Byte>))
    ensures s != [] ==> |r.2| < |s|
    ensures s == [] ==> r.0 == END
    ensures r.0 == END ==> r.2 == []
  {
    if s == [] then (END, 0, [])
    else if s[0] == BACKSLASH then (if |s| == 1 then (END, 0, []) else (NORMAL, s[1], s[2..]))
    else if s[0] == DQUOTE then (QUOTE, s[0], s[1..])
    else if s[0] == SPACE || s[0] == TAB then (WHITE, s[0], s[1..])
    else if s[0] == LF then (NL, s[0], s[1..])
    else (NORMAL, s[0], s[1..])
  }

  /** One token from `s`, in a state of the scanner with `acc` already in the buffer. */
  function Lex(s: seq<Byte>, state: LexState, acc: seq<Byte>): (r: (Token, seq<Byte>))
    ensures |r.1| <= |s|
    ensures state.Begin? && !r.0.Done? ==> |r.1| < |s|
    decreases |s|
  {
    var (charClass, c, rest) := Lexc(s);
    match charClass
    case QUOTE => Lex(rest, if state.Quoted? then Normal else Quoted, acc)
    case WHITE =>
      if state.Begin? then Lex(rest, Begin, acc)
      else if state.Normal? then (Name(acc), rest)
      else Lex(rest, state, acc + [c])
    case NORMAL => Lex(rest, if state.Begin? then Normal else state, acc + [c])
    case END => ((if state.Begin? then Done else Name(acc)), rest)
    case NL => if state.Begin? then (NewLine, rest) else (Name(acc), s)  // the newline is put back
  }

  /**
   The scanner, byte by byte: a quote toggles, white space ends a name or is skipped unless
   quoted, a newline ends a name or is a token, a backslash makes an ordinary character of the
   next byte.
   */
  lemma LexStep(s: seq<Byte>, state: LexState, acc: seq<Byte>)
    ensures s == [] || s == [92] ==> Lex(s, state, acc) == ((if state.Begin? then Done else Name(acc)), [])
    ensures s != [] && s[0] == 34 ==> Lex(s, state, acc) == Lex(s[1..], if state.Quoted? then Normal else Quoted, acc)
    ensures s != [] && (s[0] == 32 || s[0] == 9) ==>
              Lex(s, state, acc) == match state
                case Begin => Lex(s[1..], Begin, acc)
                case Normal => (Name(acc), s[1..])
                case Quoted => Lex(s[1..], Quoted, acc + [s[0]])
    ensures s != [] && s[0] == 10 ==> Lex(s, state, acc) == if state.Begin? then (NewLine, s[1..]) else (Name(acc), s)
    ensures |s| > 1 && s[0] == 92 ==> Lex(s, state, acc) == Lex(s[2..], if state.Begin? then Normal else state, acc + [s[1]])
    ensures s != [] && s[0] !in {9, 10, 32, 34, 92} ==> Lex(s, state, acc) == Lex(s[1..], if state.Begin? then Normal else state, acc + [s[0]])
  {
  }

  // ---------- names ----------

  const MAXFONTNAMELEN: nat := 1024

  function ToLower(b: Byte): Byte {
    if 65 <= b <= 90 then b + 32          // A to Z
    else if 192 <= b <= 214 then b + 32   // A-grave to O-diaeresis
    else if 216 <= b <= 222 then b + 32   // O-oblique to Thorn
    else b
  }

  /** A to Z, A-grave to O-diaeresis and O-oblique to Thorn get the letter 32 further on, and lower-casing is done once and for all. */
  lemma LowerTwice(b: Byte)
    ensures ToLower(b) == if 65 <= b <= 90 || (192 <= b <= 222 && b != 215) then b + 32 else b
    ensures ToLower(ToLower(b)) == ToLower(b)
  {
  }

  function Lowered(s: seq<Byte>): (r: seq<Byte>)
    ensures |r| == |s| && forall i :: 0 <= i < |s| ==> r[i] == ToLower(s[i])
  {
    seq(|s|, i requires 0 <= i < |s| => ToLower(s[i]))
  }

  /** What C sees of a buffer: the bytes before the first NUL. */
  function CString(s: seq<Byte>): (r: seq<Byte>)
    ensures r <= s && NUL !in r
    ensures |r| < |s| ==> s[|r|] == 0
    ensures NUL !in s ==> r == s
  {
    if s == [] || s[0] == NUL then [] else [s[0]] + CString(s[1..])
  }

  function Truncated(s: seq<Byte>): (r: seq<Byte>)
    ensures r <= s
  {
    if |s| >= MAXFONTNAMELEN then s[..MAXFONTNAMELEN - 1] else s
  }

  datatype Pair = Pair(alias: seq<Byte>, font: seq<Byte>)

  // ---------- reading ----------

  /** Two names in a row on one line. */
  datatype Names = Names(alias: seq<Byte>, font: seq<Byte>)

  /** The next two tokens that stand for a pair; a name alone on its line is dropped. */
  function NextNames(s: seq<Byte>): (r: (Option<Names>, seq<Byte>))
    ensures r.0.Some? ==> |r.1| < |s|
    decreases |s|
  {
    var (t, rest) := Lex(s, Begin, []);
    match t
    case NewLine => NextNames(rest)
    case Done => (None, rest)
    case Name(alias) =>
      var (t2, rest2) := Lex(rest, Begin, []);
      match t2
      case NewLine => NextNames(rest2)
      case Done => (None, rest2)
      case Name(font) => (Some(Names(alias, font)), rest2)
  }

  /** `Overrun`: the font token is longer than the 1024 bytes it is copied into. */
  datatype Read = Got(pair: Pair) | Closed | Overrun

  /** What ReadAliases makes of two tokens. */
  function Copied(n: Names): Read {
    if |CString(n.font)| >= MAXFONTNAMELEN then Overrun
    else Got(Pair(Lowered(Truncated(CString(n.alias))), Lowered(CString(n.font))))
  }

  /** ReadAliases: the next pair, if the file has one that fits where it is copied. */
  function ReadPair(s: seq<Byte>): (r: (Read, seq<Byte>))
    ensures !r.0.Closed? ==> |r.1| < |s|
  {
    var (n, rest) := NextNames(s);
    (if n == None then Closed else Copied(n.value), rest)
  }

  /** All pairs up to the end of the file, or to a font token that does not fit. */
  function ReadAll(s: seq<Byte>): seq<Pair>
    decreases |s|
  {
    var (r, rest) := ReadPair(s);
    if r.Got? then [r.pair] + ReadAll(rest) else []
  }

  /** Reading the file to its end copies a font token past its 1024 bytes. */
  predicate Overruns(s: seq<Byte>)
    decreases |s|
  {
    var (r, rest) := ReadPair(s);
    r.Overrun? || (r.Got? && Overruns(rest))
  }

  /** The font tokens of the whole file, as C strings. */
  function FontTokens(s: seq<Byte>): seq<seq<Byte>>
    decreases |s|
  {
    var (n, rest) := NextNames(s);
    if n == None then [] else [CString(n.value.font)] + FontTokens(rest)
  }

  /** Every store of every ReadAliases stays inside exactly when each font token has fewer than 1024 bytes. */
  lemma {:induction false} FitsIff(s: seq<Byte>)
    ensures !Overruns(s) <==> forall f :: f in FontTokens(s) ==> |f| < 1024
    decreases |s|
  {
    var (n, rest) := NextNames(s);
    if n != None {
      FitsIff(rest);
      assert FontTokens(s)[0] == CString(n.value.font);
    }
  }

  // ---------- printing ----------

  function InQuotes(s: seq<Byte>): seq<Byte> { [DQUOTE] + s + [DQUOTE] }

  /** The alias is quoted only when it has a space in it; the font always is. */
  function Print(p: Pair): seq<Byte> {
    (if SPACE in p.alias then InQuotes(p.alias) else p.alias) + [TAB] + InQuotes(p.font) + [LF]
  }

  /** The bytes of a line: a tab between the names, quotes around the font and around an alias with a space in it, a newline. */
  lemma PrintIs(p: Pair)
    ensures Print(p) == if 32 in p.alias then [34] + p.alias + [34, 9, 34] + p.font + [34, 10] else p.alias + [9, 34] + p.font + [34, 10]
  {
    assert SPACE in p.alias ==> Print(p) == [34] + p.alias + [34, 9, 34] + p.font + [34, 10];
    assert SPACE !in p.alias ==> Print(p) == p.alias + [9, 34] + p.font + [34, 10];
  }

  function PrintAll(ps: seq<Pair>): seq<Byte> {
    if ps == [] then [] else Print(ps[0]) + PrintAll(ps[1..])
  }

  // ---------- the round trip ----------

  predicate PlainText(s: seq<Byte>) {
    forall b :: b in s ==> b != NUL && b != DQUOTE && b != BACKSLASH && b != LF && ToLower(b) == b
  }

  /**
   Names in lower case, of plain text and short of 1024 bytes; a tab in the alias only where a
   space gets it quoted; the alias not empty.
   */
  predicate Printable(p: Pair) {
    && PlainText(p.alias) && PlainText(p.font)
    && p.alias != [] && (TAB in p.alias ==> SPACE in p.alias)
    && |p.alias| < MAXFONTNAMELEN && |p.font| < MAXFONTNAMELEN
  }

  lemma PlainParts(s: seq<Byte>)
    requires PlainText(s) && s != []
    ensures s[0] in s && PlainText([s[0]]) && PlainText(s[1..]) && forall b :: b in s[1..] ==> b in s
  {
    forall b | b in s[1..] ensures b in s {
      var i :| 0 <= i < |s| - 1 && s[1..][i] == b;
      assert s[i + 1] == b;
    }
  }

  /** A plain byte that is not white is an ordinary character. */
  lemma LexcPlain(s: seq<Byte>, tail: seq<Byte>)
    requires PlainText(s) && s != [] && s[0] != SPACE && s[0] != TAB
    ensures Lexc(s + tail) == (NORMAL, s[0], s[1..] + tail)
  {
    PlainParts(s);
    assert (s + tail)[1..] == s[1..] + tail;
  }

  lemma {:induction false} LexBare(s: seq<Byte>, tail: seq<Byte>, acc: seq<Byte>)
    requires PlainText(s) && SPACE !in s && TAB !in s
    ensures Lex(s + tail, Normal, acc) == Lex(tail, Normal, acc + s)
    decreases |s|
  {
    if s == [] {
      assert s + tail == tail && acc + s == acc;
    } else {
      PlainParts(s);
      assert s[0] in [s[0]];
      assert (s + tail)[1..] == s[1..] + tail;
      assert acc + [s[0]] + s[1..] == acc + s;
      LexBare(s[1..], tail, acc + [s[0]]);
    }
  }

  lemma {:induction false} LexInside(s: seq<Byte>, tail: seq<Byte>, acc: seq<Byte>)
    requires PlainText(s)
    ensures Lex(s + tail, Quoted, acc) == Lex(tail, Quoted, acc + s)
    decreases |s|
  {
    if s == [] {
      assert s + tail == tail && acc + s == acc;
    } else {
      PlainParts(s);
      assert s[0] in [s[0]];
      assert (s + tail)[1..] == s[1..] + tail;
      assert acc + [s[0]] + s[1..] == acc + s;
      LexInside(s[1..], tail, acc + [s[0]]);
    }
  }

  /** A quoted name, followed by anything, leaves the scanner in the middle of that name. */
  lemma LexQuoted(s: seq<Byte>, tail: seq<Byte>)
    requires PlainText(s)
    ensures Lex(InQuotes(s) + tail, Begin, []) == Lex(tail, Normal, s)
  {
    assert (InQuotes(s) + tail)[1..] == s + ([DQUOTE] + tail);
    LexInside(s, [DQUOTE] + tail, []);
    assert ([DQUOTE] + tail)[1..] == tail;
    assert [] + s == s;
  }

  lemma LexOrdinary(s: seq<Byte>)
    requires Lexc(s).0 == NORMAL
    ensures Lex(s, Begin, []) == Lex(Lexc(s).2, Normal, [Lexc(s).1])
  {
    assert [] + [Lexc(s).1] == [Lexc(s).1];
  }

  lemma LexUnquoted(s: seq<Byte>, tail: seq<Byte>)
    requires PlainText(s) && s != [] && SPACE !in s && TAB !in s
    ensures Lex(s + tail, Begin, []) == Lex(tail, Normal, s)
  {
    PlainParts(s);
    LexcPlain(s, tail);
    LexOrdinary(s + tail);
    assert [s[0]] + s[1..] == s;
    LexBare(s[1..], tail, [s[0]]);
  }

  lemma LowerPlain(s: seq<Byte>)
    requires PlainText(s)
    ensures Lowered(s) == s && CString(s) == s
  {
    assert NUL !in s;
  }

  /** What the two tokens of a printed pair are, the font of any length. */
  lemma LexPrinted(p: Pair, tail: seq<Byte>)
    requires PlainText(p.alias) && PlainText(p.font) && p.alias != [] && (TAB in p.alias ==> SPACE in p.alias)
    ensures var font := InQuotes(p.font) + ([LF] + tail);
            Lex(Print(p) + tail, Begin, []) == (Name(p.alias), font) && Lex(font, Begin, []) == (Name(p.font), [LF] + tail)
  {
    var font := InQuotes(p.font) + ([LF] + tail);
    var name := if SPACE in p.alias then InQuotes(p.alias) else p.alias;
    assert Print(p) + tail == name + ([TAB] + font);
    if SPACE in p.alias { LexQuoted(p.alias, [TAB] + font); } else { LexUnquoted(p.alias, [TAB] + font); }
    assert ([TAB] + font)[1..] == font;
    LexQuoted(p.font, [LF] + tail);
  }

  /** A printed pair reads back, and leaves the file at the newline that ends it. */
  lemma ReadsBack(p: Pair, tail: seq<Byte>)
    requires Printable(p)
    ensures ReadPair(Print(p) + tail) == (Got(p), [LF] + tail)
  {
    LexPrinted(p, tail);
    LowerPlain(p.alias);
    LowerPlain(p.font);
  }

  /** A font of 1024 bytes or more does not fit where ReadAliases copies it. */
  lemma LongFontOverruns(p: Pair, tail: seq<Byte>)
    requires PlainText(p.alias) && PlainText(p.font) && p.alias != [] && (TAB in p.alias ==> SPACE in p.alias)
    requires |p.font| >= 1024
    ensures ReadPair(Print(p) + tail).0 == Overrun && Overruns(Print(p) + tail)
  {
    LexPrinted(p, tail);
    LowerPlain(p.font);
  }

  /** The shortest such font: `a` aliased to 1024 times `b`. */
  lemma OverrunHappens(p: Pair)
    requires p == Pair([97], seq(1024, _ => 98))
    ensures Overruns(Print(p)) && ReadAll(Print(p)) == []
  {
    assert SPACE !in p.alias && TAB !in p.alias;
    LongFontOverruns(p, []);
    assert Print(p) + [] == Print(p);
  }

  /** An empty line is skipped. */
  lemma SkipsNewline(s: seq<Byte>)
    ensures NextNames([LF] + s) == NextNames(s) && ReadPair([LF] + s) == ReadPair(s)
  {
    assert ([LF] + s)[1..] == s;
  }

  /** The text printed for printable pairs is read back as the same pairs, and every font token fits. */
  lemma {:induction false} RoundTrip(ps: seq<Pair>)
    requires forall p :: p in ps ==> Printable(p)
    ensures ReadAll(PrintAll(ps)) == ps && !Overruns(PrintAll(ps))
  {
    if ps != [] {
      ReadsBack(ps[0], PrintAll(ps[1..]));
      ReadAllSkips(PrintAll(ps[1..]));
      RoundTrip(ps[1..]);
    }
  }

  lemma ReadAllSkips(s: seq<Byte>)
    ensures ReadAll([LF] + s) == ReadAll(s) && Overruns([LF] + s) == Overruns(s)
  {
    SkipsNewline(s);
  }

  /** Why the tab matters: printed bare, it splits the alias, and what follows it becomes the font. */
  lemma TabSplits(a: seq<Byte>, b: seq<Byte>, font: seq<Byte>, tail: seq<Byte>)
    requires PlainText(a) && PlainText(b) && a != [] && b != [] && |a| < MAXFONTNAMELEN && |b| < MAXFONTNAMELEN
    requires SPACE !in a && TAB !in a && SPACE !in b && TAB !in b
    ensures ReadPair(Print(Pair(a + [TAB] + b, font)) + tail).0 == Got(Pair(a, b))
  {
    var after := [TAB] + InQuotes(font) + [LF] + tail;
    assert SPACE !in a + [TAB] + b;
    assert Print(Pair(a + [TAB] + b, font)) + tail == a + ([TAB] + (b + after));
    LexUnquoted(a, [TAB] + (b + after));
    assert ([TAB] + (b + after))[1..] == b + after;
    LexUnquoted(b, after);
    LowerPlain(a);
    LowerPlain(b);
  }
}
