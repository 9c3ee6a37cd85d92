/** installalias.c as it runs: a file read byte by byte, and a token buffer that is kept and doubled. */
module AliasFile {
  import opened Options
  import opened AliasLists
  import opened AliasText

  /** What lexAlias returns; `EAlloc` when the buffer could not grow. */
  datatype Lexed = Lexed(token: Token) | EAlloc

  class Reader {
    var input: seq<Byte>          // what is left of the file
    var tokenBuf: array<Byte>     // its length is tokenSize
    const memLimit: nat           // realloc fails above this size

    constructor (text: seq<Byte>, memLimit: nat)
      ensures input == text && this.memLimit == memLimit && fresh(tokenBuf) && tokenBuf.Length == 0
    {
      input := text;
      this.memLimit := memLimit;
      tokenBuf := new Byte[0];
    }

    /** The next size the buffer would grow to cannot be had. */
    predicate TooSmall()
      reads this
    {
      (if tokenBuf.Length > 0 then 2 * tokenBuf.Length else 64) > memLimit
    }

    method GetChar() returns (charClass: CharClass, c: Byte)
      modifies this`input
      ensures (charClass, c, input) == Lexc(old(input))
      ensures old(input) == [] || old(input) == [92] ==> charClass == END && input == []
      ensures |old(input)| > 1 && old(input)[0] == 92 ==> charClass == NORMAL && c == old(input)[1] && input == old(input)[2..]
      ensures old(input) != [] && old(input)[0] != 92 ==>
                && c == old(input)[0] && input == old(input)[1..]
                && charClass == if c == 34 then QUOTE else if c == 32 || c == 9 then WHITE else if c == 10 then NL else NORMAL
    {
      if input == [] { return END, 0; }
      c := input[0];
      input := input[1..];
      if c == BACKSLASH {
        if input == [] { return END, 0; }
        c := input[0];
        input := input[1..];
        return NORMAL, c;
      }
      charClass := if c == DQUOTE then QUOTE else if c == SPACE || c == TAB then WHITE else if c == LF then NL else NORMAL;
    }

    /** Double the buffer when it is full, so that there is always room for one more byte. */
    method Grow(count: nat) returns (ok: bool)
      requires count <= tokenBuf.Length
      modifies this`tokenBuf
      ensures ok ==> count < tokenBuf.Length && (tokenBuf == old(tokenBuf) || fresh(tokenBuf)) && tokenBuf[..count] == old(tokenBuf[..count])
      ensures !ok ==> tokenBuf == old(tokenBuf) && count == tokenBuf.Length && (if tokenBuf.Length > 0 then 2 * tokenBuf.Length else 64) > memLimit
    {
      if count == tokenBuf.Length {
        var nsize := if tokenBuf.Length > 0 then 2 * tokenBuf.Length else 64;
        if nsize > memLimit { return false; }
        var nbuf := new Byte[nsize](_ => 0);
        for i := 0 to count
          invariant tokenBuf == old(tokenBuf) && nbuf[..i] == tokenBuf[..i]
        {
          nbuf[i] := tokenBuf[i];
        }
        tokenBuf := nbuf;
      }
      return true;
    }

    /** One token.  Every store, the terminator's included, lies inside the buffer. */
    method LexAlias() returns (r: Lexed)
      modifies this, tokenBuf
      ensures tokenBuf == old(tokenBuf) || fresh(tokenBuf)
      ensures r.Lexed? ==> (r.token, input) == Lex(old(input), Begin, [])
      ensures r.EAlloc? ==> (if tokenBuf.Length > 0 then 2 * tokenBuf.Length else 64) > memLimit
    {
      var state, count := Begin, 0;
      while true
        invariant tokenBuf == old(tokenBuf) || fresh(tokenBuf)
        invariant count <= tokenBuf.Length
        invariant Lex(input, state, tokenBuf[..count]) == Lex(old(input), Begin, [])
        invariant state.Begin? ==> count == 0
        decreases |input|
      {
        var ok := Grow(count);
        if !ok { return EAlloc; }
        ghost var before := input;
        var charClass, c := GetChar();
        match charClass
        case QUOTE =>
          state := if state.Quoted? then Normal else Quoted;
        case WHITE =>
          if state.Normal? {
            r := EndToken(count);
            return;
          } else if state.Quoted? {
            count := Store(count, c);
          }
        case NORMAL =>
          if state.Begin? { state := Normal; }
          count := Store(count, c);
        case END =>
          if state.Begin? { return Lexed(Done); }
          r := EndToken(count);
          return;
        case NL =>
          if state.Begin? { return Lexed(NewLine); }
          r := EndToken(count);
          input := [LF] + input;
          assert input == before;
          return;
      }
    }

    method Store(count: nat, c: Byte) returns (n: nat)
      requires count < tokenBuf.Length
      modifies tokenBuf
      ensures n == count + 1 && tokenBuf[..n] == old(tokenBuf[..count]) + [c]
    {
      tokenBuf[count] := c;
      n := count + 1;
    }

    /** The terminator goes after the token, and the token is what was before it. */
    method EndToken(count: nat) returns (r: Lexed)
      requires count < tokenBuf.Length
      modifies tokenBuf
      ensures tokenBuf[count] == NUL && tokenBuf[..count] == old(tokenBuf[..count])
      ensures r == Lexed(Name(tokenBuf[..count]))
    {
      tokenBuf[count] := NUL;
      return Lexed(Name(tokenBuf[..count]));
    }

    /** strlcpy into one of the 1024-byte buffers. */
    method CopyTruncated(dest: array<Byte>, source: seq<Byte>)
      requires dest.Length == MAXFONTNAMELEN && NUL !in source
      modifies dest
      ensures CString(dest[..]) == Truncated(source) == if |source| < 1024 then source else source[..1023]
    {
      var n := if |source| >= MAXFONTNAMELEN then MAXFONTNAMELEN - 1 else |source|;
      for i := 0 to n
        invariant dest[..i] == source[..i]
      {
        dest[i] := source[i];
      }
      dest[n] := NUL;
      Terminated(dest[..], Truncated(source));
    }

    /** copyISOLatin1Lowered: as many stores as the source is long, and one for the terminator, with no other bound. */
    method CopyLowered(dest: array<Byte>, source: seq<Byte>)
      requires |source| < dest.Length && NUL !in source
      modifies dest
      ensures CString(dest[..]) == Lowered(source)
    {
      for i := 0 to |source|
        invariant dest[..i] == Lowered(source)[..i]
      {
        dest[i] := ToLower(source[i]);
      }
      dest[|source|] := NUL;
      assert NUL !in Lowered(source);
      Terminated(dest[..], Lowered(source));
    }

    /**
     The next pair, left in the two buffers.  It ends with `Overrun` exactly when the font's copy
     would leave its buffer, and stops short of that store; `memory` turns false when a token did
     not fit in the token buffer, and then reading ends.
     */
    method ReadAliases(alias: array<Byte>, font: array<Byte>) returns (r: Read, memory: bool)
      requires alias.Length == font.Length == MAXFONTNAMELEN && alias != font && alias != tokenBuf && font != tokenBuf
      modifies this, tokenBuf, alias, font
      ensures tokenBuf == old(tokenBuf) || fresh(tokenBuf)
      ensures memory ==> (r, input) == ReadPair(old(input))
      ensures r.Got? ==> CString(alias[..]) == r.pair.alias && CString(font[..]) == r.pair.font
      ensures !memory ==> r == Closed && (if tokenBuf.Length > 0 then 2 * tokenBuf.Length else 64) > memLimit
    {
      while true
        invariant tokenBuf == old(tokenBuf) || fresh(tokenBuf)
        invariant NextNames(input) == NextNames(old(input))
        decreases |input|
      {
        var first := LexAlias();
        if first.EAlloc? { return Closed, false; }
        if first.token.Done? { return Closed, true; }
        if first.token.Name? {
          CopyTruncated(alias, CString(first.token.text));
          ghost var name := Truncated(CString(first.token.text));
          var second := LexAlias();
          if second.EAlloc? { return Closed, false; }
          if second.token.Done? { return Closed, true; }
          if second.token.Name? {
            r := TakePair(alias, font, CString(second.token.text), name);
            return r, true;
          }
        }
      }
    }

    /** The case of two names in a row. */
    method TakePair(alias: array<Byte>, font: array<Byte>, token: seq<Byte>, ghost name: seq<Byte>) returns (r: Read)
      requires alias.Length == font.Length == MAXFONTNAMELEN && alias != font
      requires CString(alias[..]) == name && |name| < MAXFONTNAMELEN && NUL !in token
      modifies alias, font
      ensures r == if |token| >= MAXFONTNAMELEN then Overrun else Got(Pair(Lowered(name), Lowered(token)))
      ensures r.Got? ==> CString(alias[..]) == r.pair.alias && CString(font[..]) == r.pair.font
    {
      CopyLowered(alias, CString(alias[..]));
      if |token| >= font.Length { return Overrun; }
      CopyLowered(font, token);
      return Got(Pair(CString(alias[..]), CString(font[..])));
    }

    /**
     ProcessAliasFile: copy the pairs whose font is found; `found(i)` is what verifying the i-th
     one says.  All pairs are gone through unless a token did not fit in memory or a font did not
     fit in its buffer, and what has been printed reads back exactly when it is of printable pairs.
     */
    method ProcessAliasFile(found: nat -> bool) returns (newfile: seq<Byte>, n: nat, overrun: bool)
      modifies this, tokenBuf
      ensures n <= |ReadAll(old(input))| && newfile == PrintAll(Kept(ReadAll(old(input)), found, n))
      ensures if overrun then Overruns(old(input)) && n == |ReadAll(old(input))|
              else || (if tokenBuf.Length > 0 then 2 * tokenBuf.Length else 64) > memLimit
                   || (!Overruns(old(input)) && n == |ReadAll(old(input))|)
      ensures ReadAll(newfile) == Kept(ReadAll(old(input)), found, n)
         <==> forall p :: p in Kept(ReadAll(old(input)), found, n) ==> Printable(p)
    {
      newfile, n, overrun := CopyPairs(found);
      RoundTripIff(Kept(ReadAll(old(input)), found, n));
    }

    /** The reading and printing loop. */
    method CopyPairs(found: nat -> bool) returns (newfile: seq<Byte>, n: nat, overrun: bool)
      modifies this, tokenBuf
      ensures tokenBuf == old(tokenBuf) || fresh(tokenBuf)
      ensures n <= |ReadAll(old(input))| && newfile == PrintAll(Kept(ReadAll(old(input)), found, n))
      ensures if overrun then Overruns(old(input)) && n == |ReadAll(old(input))|
              else TooSmall() || (!Overruns(old(input)) && n == |ReadAll(old(input))|)
    {
      newfile, n := [], 0;
      var alias, font := new Byte[MAXFONTNAMELEN](_ => NUL), new Byte[MAXFONTNAMELEN](_ => NUL);
      ghost var all, over := ReadAll(input), Overruns(input);
      var r, memory := NextPair(alias, font, all, 0, over);
      while r.Got?
        invariant tokenBuf == old(tokenBuf) || fresh(tokenBuf)
        invariant tokenBuf != alias && tokenBuf != font
        invariant n <= |all| && newfile == PrintAll(Kept(all, found, n)) && Ahead(all, n, over, r, memory)
        decreases |all| - n
      {
        newfile := PrintPair(newfile, r.pair, found(n), Kept(all, found, n));
        n := n + 1;
        r, memory := NextPair(alias, font, all, n, over);
      }
      overrun := r.Overrun?;
    }

    /** What has just been read is the n-th of all the pairs, or the end of them, or an overrun if there is one. */
    ghost predicate Ahead(all: seq<Pair>, n: nat, over: bool, r: Read, memory: bool)
      reads this
    {
      if !memory then r == Closed && TooSmall()
      else
        match r
        case Got(p) => n < |all| && p == all[n] && all[n + 1..] == ReadAll(input) && over == Overruns(input)
        case Closed => n == |all| && !over
        case Overrun => n == |all| && over
    }

    method NextPair(alias: array<Byte>, font: array<Byte>, ghost all: seq<Pair>, ghost n: nat, ghost over: bool)
      returns (r: Read, memory: bool)
      requires alias.Length == font.Length == MAXFONTNAMELEN && alias != font && alias != tokenBuf && font != tokenBuf
      requires n <= |all| && all[n..] == ReadAll(input) && over == Overruns(input)
      modifies this, tokenBuf, alias, font
      ensures tokenBuf == old(tokenBuf) || fresh(tokenBuf)
      ensures Ahead(all, n, over, r, memory)
    {
      r, memory := ReadAliases(alias, font);
      if r.Got? {
        assert all[n..] == [r.pair] + ReadAll(input);
        assert all[n + 1..] == all[n..][1..];
      }
    }

    /** A pair whose font was found, and is not the alias itself, is added to the new file. */
    method PrintPair(newfile: seq<Byte>, p: Pair, found: bool, ghost printed: seq<Pair>) returns (r: seq<Byte>)
      requires newfile == PrintAll(printed)
      ensures r == PrintAll(printed + if p.alias != p.font && found then [p] else [])
    {
      r := newfile;
      assert printed + [] == printed;
      if p.alias != p.font && found {
        PrintOneMore(printed, p);
        r := r + Print(p);
      }
    }
  }

  /** A buffer that begins with a string and a NUL holds that string. */
  lemma {:induction false} Terminated(buf: seq<Byte>, s: seq<Byte>)
    requires |s| < |buf| && buf[..|s|] == s && buf[|s|] == NUL && NUL !in s
    ensures CString(buf) == s
  {
    if s != [] {
      assert buf[1..][..|s| - 1] == s[1..];
      assert forall b :: b in s[1..] ==> b in s;
      Terminated(buf[1..], s[1..]);
    }
  }

  lemma {:induction false} PrintOneMore(ps: seq<Pair>, p: Pair)
    ensures PrintAll(ps + [p]) == PrintAll(ps) + Print(p)
  {
    if ps == [] {
      assert [p][1..] == [];
    } else {
      assert (ps + [p])[1..] == ps[1..] + [p];
      PrintOneMore(ps[1..], p);
    }
  }

  /** The pairs among the first `n` that are printed: found, and not aliased to themselves. */
  function Kept(ps: seq<Pair>, found: nat -> bool, n: nat): seq<Pair>
    requires n <= |ps|
  {
    if n == 0 then []
    else Kept(ps, found, n - 1) + if ps[n - 1].alias != ps[n - 1].font && found(n - 1) then [ps[n - 1]] else []
  }

  /** One pair after the other is printed or passed over. */
  lemma KeptNext(ps: seq<Pair>, found: nat -> bool, n: nat)
    requires n < |ps|
    ensures Kept(ps, found, 0) == []
    ensures Kept(ps, found, n + 1) == Kept(ps, found, n) + if ps[n].alias == ps[n].font || !found(n) then [] else [ps[n]]
  {
  }
}
