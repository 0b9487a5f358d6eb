/** The streaming JSON writer: an append-only, NUL-terminated byte buffer that
    doubles its capacity on demand, and a stack of 32 "a comma is due" flags,
    one per open object or array.

    The pure part states what each writer call appends and how it moves the
    flags (`Doc` and the functions on it), what string escaping produces
    (`Escape`, `EscapeAll`), and an independent decoder of JSON string bodies
    following section 7 of RFC 8259 (`Unescaped`).  The class `Writer` is the
    C struct, updated in place, each of its methods proved against those
    functions. */
module Json {
  import opened Bytes

  /** The capacity jsonw_init allocates. */
  const InitialCap: nat := 256
  /** The length of need_comma_stack. */
  const MaxDepth: nat := 32

  const Quote: byte := '"' as int
  const Backslash: byte := '\\' as int
  const Slash: byte := '/' as int
  const Comma: byte := ',' as int
  const Colon: byte := ':' as int
  const LBrace: byte := '{' as int
  const RBrace: byte := '}' as int
  const LBracket: byte := '[' as int
  const RBracket: byte := ']' as int

  // ---------------------------------------------------------------------------
  // Capacity growth

  function Pow2(k: nat): (p: nat)
    ensures p >= 1
  {
    if k == 0 then 1 else 2 * Pow2(k - 1)
  }

  /** The number of doublings jsonw_reserve applies to `cap` to reach `need`. */
  function Doublings(cap: nat, need: nat): nat
    requires cap >= 1
    decreases need - cap
  {
    if need <= cap then 0 else 1 + Doublings(2 * cap, need)
  }

  /** The capacity jsonw_reserve settles on: `cap` doubled until it holds `need` bytes. */
  function Grown(cap: nat, need: nat): nat
    requires cap >= 1
  {
    cap * Pow2(Doublings(cap, need))
  }

  /** Grown(cap, need) is the smallest cap·2^k that is at least `need`. */
  lemma {:induction false} GrownSmallest(cap: nat, need: nat)
    requires cap >= 1
    ensures Grown(cap, need) >= need && Grown(cap, need) >= cap
    ensures forall k: nat :: k < Doublings(cap, need) ==> cap * Pow2(k) < need
    decreases need - cap
  {
    if need > cap {
      GrownSmallest(2 * cap, need);
      var d := Doublings(2 * cap, need);
      Pow2Step(cap, d);
      forall k: nat | k < Doublings(cap, need)
        ensures cap * Pow2(k) < need
      {
        if k > 0 {
          Pow2Step(cap, k - 1);
        }
      }
    }
  }

  lemma Pow2Step(cap: nat, k: nat)
    ensures cap * Pow2(k + 1) == (2 * cap) * Pow2(k)
  {
    assert Pow2(k + 1) == 2 * Pow2(k);
  }

  /** One doubling step of jsonw_reserve's loop does not change where it ends. */
  lemma GrownStep(cap: nat, need: nat)
    requires 1 <= cap < need
    ensures Grown(cap, need) == Grown(2 * cap, need)
  {
    assert Pow2(Doublings(cap, need)) == 2 * Pow2(Doublings(2 * cap, need));
  }

  // ---------------------------------------------------------------------------
  // String escaping

  /** What jsonw_string_escaped writes for one input byte. */
  function Escape(c: byte): (r: seq<byte>)
    ensures 1 <= |r| <= 6
    ensures forall i :: 0 <= i < |r| ==> r[i] >= 0x20
    ensures r == [c] <==> (c >= 0x20 && c != Quote && c != Backslash)
    ensures r != [c] ==> r[0] == Backslash && |r| >= 2
  {
    if c == Quote then [Backslash, Quote]
    else if c == Backslash then [Backslash, Backslash]
    else if c == 8 then [Backslash, 'b' as int]
    else if c == 12 then [Backslash, 'f' as int]
    else if c == LF then [Backslash, 'n' as int]
    else if c == CR then [Backslash, 'r' as int]
    else if c == HT then [Backslash, 't' as int]
    else if c < 0x20 then [Backslash, 'u' as int, '0' as int, '0' as int, HexDigit(c / 16), HexDigit(c % 16)]
    else [c]
  }

  /** The escaped body of a string, byte by byte. */
  function EscapeAll(s: seq<byte>): seq<byte> {
    if s == [] then [] else Escape(s[0]) + EscapeAll(s[1..])
  }

  /** The whole string token: the escaped body between double quotes. */
  function Quoted(s: seq<byte>): seq<byte> {
    [Quote] + EscapeAll(s) + [Quote]
  }

  /** Escaping one more byte appends its escape. */
  lemma {:induction false} EscapeAllSnoc(s: seq<byte>, c: byte)
    ensures EscapeAll(s + [c]) == EscapeAll(s) + Escape(c)
  {
    if s != [] {
      assert (s + [c])[1..] == s[1..] + [c];
      EscapeAllSnoc(s[1..], c);
    } else {
      assert [c][1..] == [];
    }
  }

  /** The escaped form holds no raw control byte (section 7 of RFC 8259
      requires U+0000 to U+001F to be escaped). */
  lemma {:induction false} EscapeAllNoControl(s: seq<byte>)
    ensures forall i :: 0 <= i < |EscapeAll(s)| ==> EscapeAll(s)[i] >= 0x20
  {
    if s != [] {
      EscapeAllNoControl(s[1..]);
      var e, t := Escape(s[0]), EscapeAll(s[1..]);
      assert forall i :: 0 <= i < |e + t| ==> (e + t)[i] == if i < |e| then e[i] else t[i - |e|];
    }
  }

  /** Bytes that need no escaping come out unchanged. */
  lemma {:induction false} EscapeAllPlain(s: seq<byte>)
    requires forall i :: 0 <= i < |s| ==> s[i] >= 0x20 && s[i] != Quote && s[i] != Backslash
    ensures EscapeAll(s) == s
  {
    if s != [] {
      EscapeAllPlain(s[1..]);
    }
  }

  /** The value of four hexadecimal digits. */
  function Hex4(h: seq<byte>): nat
    requires |h| == 4 && forall i :: 0 <= i < 4 ==> IsHexDigit(h[i])
  {
    ((HexValue(h[0]) * 16 + HexValue(h[1])) * 16 + HexValue(h[2])) * 16 + HexValue(h[3])
  }

  function Prepend(c: int, r: Option<seq<int>>): Option<seq<int>> {
    match r
    case None => None
    case Some(t) => Some([c] + t)
  }

  /** A decoder of the characters between the quotes of a JSON string
      (section 7 of RFC 8259), giving UTF-16 code units for `\u` escapes and
      bytes otherwise; None on a raw quote, a raw control byte or a malformed
      escape. */
  function Unescaped(s: seq<byte>): Option<seq<int>>
    decreases |s|
  {
    if s == [] then Some([])
    else if s[0] == Quote || s[0] < 0x20 then None
    else if s[0] != Backslash then Prepend(s[0], Unescaped(s[1..]))
    else if |s| < 2 then None
    else if s[1] == Quote || s[1] == Backslash || s[1] == Slash then Prepend(s[1], Unescaped(s[2..]))
    else if s[1] == 'b' as int then Prepend(8, Unescaped(s[2..]))
    else if s[1] == 'f' as int then Prepend(12, Unescaped(s[2..]))
    else if s[1] == 'n' as int then Prepend(LF, Unescaped(s[2..]))
    else if s[1] == 'r' as int then Prepend(CR, Unescaped(s[2..]))
    else if s[1] == 't' as int then Prepend(HT, Unescaped(s[2..]))
    else if s[1] == 'u' as int && |s| >= 6 && forall i :: 2 <= i < 6 ==> IsHexDigit(s[i]) then
      Prepend(Hex4(s[2..6]), Unescaped(s[6..]))
    else None
  }

  /** A whole JSON string token: the decoded body between two quotes. */
  function StringToken(t: seq<byte>): Option<seq<int>> {
    if |t| >= 2 && t[0] == Quote && t[|t| - 1] == Quote then Unescaped(t[1..|t| - 1]) else None
  }

  /** Decoding the escape of one byte gives that byte back. */
  lemma UnescapeOne(c: byte, rest: seq<byte>)
    ensures Unescaped(Escape(c) + rest) == Prepend(c, Unescaped(rest))
  {
    var e := Escape(c);
    if |e| == 1 {
      UnescapeVerbatim(c, e, rest);
    } else if |e| == 2 {
      UnescapeShort(c, e, rest);
    } else {
      UnescapeUnicode(c, e, rest);
    }
  }

  /** UnescapeOne for a byte written as itself. */
  lemma UnescapeVerbatim(c: byte, e: seq<byte>, rest: seq<byte>)
    requires e == Escape(c) && |e| == 1
    ensures Unescaped(e + rest) == Prepend(c, Unescaped(rest))
  {
    assert (e + rest)[1..] == rest;
  }

  /** UnescapeOne for a two-byte escape such as `\n`. */
  lemma UnescapeShort(c: byte, e: seq<byte>, rest: seq<byte>)
    requires e == Escape(c) && |e| == 2
    ensures Unescaped(e + rest) == Prepend(c, Unescaped(rest))
  {
    var s := e + rest;
    assert s[1] == e[1] && s[2..] == rest;
  }

  /** UnescapeOne for a `\u00XX` escape. */
  lemma UnescapeUnicode(c: byte, e: seq<byte>, rest: seq<byte>)
    requires e == Escape(c) && |e| > 2
    ensures Unescaped(e + rest) == Prepend(c, Unescaped(rest))
  {
    var s := e + rest;
    assert s[1] == 'u' as int && s[2..6] == e[2..6] && s[6..] == rest;
    assert Hex4(s[2..6]) == c;
  }

  /** Escaping and then decoding gives the input back. */
  lemma {:induction false} UnescapeEscapeAll(s: seq<byte>)
    ensures Unescaped(EscapeAll(s)) == Some(s)
  {
    if s != [] {
      UnescapeOne(s[0], EscapeAll(s[1..]));
      UnescapeEscapeAll(s[1..]);
      assert [s[0]] + s[1..] == s;
    }
  }

  /** The token jsonw_string_escaped writes decodes to the input string. */
  lemma QuotedRoundTrip(s: seq<byte>)
    ensures StringToken(Quoted(s)) == Some(s)
  {
    var t := Quoted(s);
    assert t[1..|t| - 1] == EscapeAll(s);
    UnescapeEscapeAll(s);
  }

  // ---------------------------------------------------------------------------
  // The writer as a value

  /** What a writer has produced: its output, and the comma flags of the open
      containers, outermost first. */
  datatype Doc = Doc(out: seq<byte>, flags: seq<bool>)

  /** The empty writer jsonw_init leaves. */
  const Empty := Doc([], [])

  /** The innermost open container has its flag set. */
  predicate CommaDue(d: Doc) {
    |d.flags| > 0 && d.flags[|d.flags| - 1]
  }

  /** jsonw_comma_if_needed: a comma when one is due, nothing otherwise. */
  function WithComma(d: Doc): Doc {
    if CommaDue(d) then Emit(d, [Comma]) else d
  }

  function Emit(d: Doc, s: seq<byte>): Doc {
    d.(out := d.out + s)
  }

  /** jsonw_mark_need_comma: set the innermost flag, if any. */
  function Marked(d: Doc): (r: Doc)
    ensures r.out == d.out && |r.flags| == |d.flags|
    ensures |d.flags| > 0 ==> r.flags[|d.flags| - 1]
    ensures forall i :: 0 <= i < |d.flags| - 1 ==> r.flags[i] == d.flags[i]
  {
    if |d.flags| > 0 then d.(flags := d.flags[|d.flags| - 1 := true]) else d
  }

  /** jsonw_obj_begin / jsonw_arr_begin: comma if due, the bracket, and a
      new clear flag.  The enclosing container's flag is left as it was. */
  function Begun(d: Doc, open: byte): (r: Doc)
    ensures r.flags == d.flags + [false]
  {
    Doc(WithComma(d).out + [open], d.flags + [false])
  }

  /** jsonw_obj_end / jsonw_arr_end on an open container: drop its flag and close it. */
  function Ended(d: Doc, close: byte): (r: Doc)
    requires |d.flags| > 0
    ensures |r.flags| == |d.flags| - 1
  {
    Doc(d.out + [close], d.flags[..|d.flags| - 1])
  }

  /** jsonw_key: comma if due, the quoted key, a colon.  The flag is untouched. */
  function Keyed(d: Doc, k: seq<byte>): (r: Doc)
    ensures r.flags == d.flags
  {
    Emit(Emit(WithComma(d), Quoted(k)), [Colon])
  }

  /** A key and an already formatted value, then the flag: what jsonw_pair_string,
      jsonw_pair_number and jsonw_pair_uint have in common. */
  function Paired(d: Doc, k: seq<byte>, v: seq<byte>): (r: Doc)
    ensures |d.flags| > 0 ==> r.flags == d.flags[|d.flags| - 1 := true]
    ensures |d.flags| == 0 ==> r.flags == []
  {
    Marked(Emit(Keyed(d, k), v))
  }

  /** The text `{"k1":"v1","k2":n}`, written out. */
  function TwoPairObject(k1: seq<byte>, v1: seq<byte>, k2: seq<byte>, n: nat): seq<byte> {
    [LBrace] + Quoted(k1) + [Colon] + Quoted(v1) + [Comma] + Quoted(k2) + [Colon] + Decimal(n) + [RBrace]
  }

  /** obj_begin; pair_string(k1, v1); pair_uint(k2, n); obj_end on a fresh
      writer produces `{"k1":"v1","k2":n}` and closes every container. */
  lemma TwoPairs(k1: seq<byte>, v1: seq<byte>, k2: seq<byte>, n: nat)
    ensures Ended(Paired(Paired(Begun(Empty, LBrace), k1, Quoted(v1)), k2, Decimal(n)), RBrace)
      == Doc(TwoPairObject(k1, v1, k2, n), [])
  {
    var d1 := Begun(Empty, LBrace);
    assert d1 == Doc([LBrace], [false]);
    var d2 := Paired(d1, k1, Quoted(v1));
    assert d2 == Doc([LBrace] + Quoted(k1) + [Colon] + Quoted(v1), [true]);
    var d3 := Paired(d2, k2, Decimal(n));
    assert d3.out == [LBrace] + Quoted(k1) + [Colon] + Quoted(v1) + [Comma] + Quoted(k2) + [Colon] + Decimal(n);
  }

  /** Two containers opened and closed in turn inside an array get no comma
      between them: begin never sets the enclosing flag, so `[{}{}]` comes out. */
  lemma SiblingContainersUnseparated()
    ensures Ended(Ended(Begun(Ended(Begun(Begun(Empty, LBracket), LBrace), RBrace), LBrace), RBrace), RBracket).out
      == [LBracket, LBrace, RBrace, LBrace, RBrace, RBracket]
  {
  }

  /** A boolean written as the first value of an object leaves the flag
      clear, so the next pair gets no comma: jsonw_bool writes raw text only. */
  lemma BoolSetsNoFlag(k: seq<byte>, b: seq<byte>, k2: seq<byte>, v2: seq<byte>)
    ensures Paired(Emit(Keyed(Begun(Empty, LBrace), k), b), k2, v2).out
      == [LBrace] + Quoted(k) + [Colon] + b + Quoted(k2) + [Colon] + v2
  {
    var d1 := Begun(Empty, LBrace);
    assert d1 == Doc([LBrace], [false]);
    var d2 := Emit(Keyed(d1, k), b);
    assert !CommaDue(d1);
    assert d2 == Doc([LBrace] + Quoted(k) + [Colon] + b, [false]);
    assert !CommaDue(d2);
  }

  lemma AssocQuoted(a: seq<byte>, e: seq<byte>)
    ensures ((a + [Quote]) + e) + [Quote] == a + (([Quote] + e) + [Quote])
  {
  }

  // ---------------------------------------------------------------------------
  // The writer in place

  /** jsonw.  `buf[..len]` is the output, `buf[len]` its NUL terminator,
      `needComma[..depth]` the flags of the open containers. */
  class Writer {
    var buf: array<byte>
    var len: nat
    var cap: nat
    const needComma: array<bool>
    var depth: nat

    ghost predicate Valid()
      reads this, buf
    {
      buf.Length == cap && len < cap && buf[len] == NUL &&
      needComma.Length == MaxDepth && depth <= MaxDepth
    }

    /** The output so far. */
    function Contents(): seq<byte>
      reads this, buf
      requires Valid()
    {
      buf[..len]
    }

    /** The flags of the open containers, outermost first. */
    function Stack(): seq<bool>
      reads this, needComma
      requires depth <= needComma.Length
    {
      needComma[..depth]
    }

    function State(): Doc
      reads this, buf, needComma
      requires Valid()
    {
      Doc(Contents(), Stack())
    }

    /** jsonw_init, with the allocation assumed to succeed. */
    constructor ()
      ensures Valid() && fresh(buf) && fresh(needComma)
      ensures cap == InitialCap && len == 0 && depth == 0 && buf[0] == NUL
      ensures forall i :: 0 <= i < MaxDepth ==> !needComma[i]
      ensures State() == Empty
    {
      var b := new byte[InitialCap];
      b[0] := NUL;
      buf := b;
      cap := InitialCap;
      len := 0;
      depth := 0;
      needComma := new bool[MaxDepth](_ => false);
    }

    /** jsonw_reserve(add): afterwards `len + add + 1 <= cap`; `cap` is kept when
        that already held and otherwise doubled until it does.  realloc is
        assumed to succeed and keeps the old block's bytes. */
    method Reserve(add: nat)
      requires Valid()
      modifies this
      ensures Valid() && len + add + 1 <= cap
      ensures cap == if old(len) + add + 1 <= old(cap) then old(cap) else Grown(old(cap), old(len) + add + 1)
      ensures len == old(len) && depth == old(depth)
      ensures buf == old(buf) || fresh(buf)
      ensures buf[..len] == old(buf[..len])
    {
      if len + add + 1 <= cap {
        return;
      }
      var ncap := cap;
      while len + add + 1 > ncap
        invariant unchanged(this) && cap <= ncap
        invariant Grown(cap, len + add + 1) == Grown(ncap, len + add + 1)
        decreases len + add + 1 - ncap
      {
        GrownStep(ncap, len + add + 1);
        ncap := ncap * 2;
      }
      var nb := new byte[ncap];
      forall i | 0 <= i < cap {
        nb[i] := buf[i];
      }
      buf, cap := nb, ncap;
    }

    /** jsonw_append(s, n): the n bytes of `s` follow the output, which stays NUL-terminated. */
    method Append(s: seq<byte>)
      requires Valid()
      modifies this, buf
      ensures Valid() && Contents() == old(Contents()) + s
      ensures depth == old(depth)
      ensures buf == old(buf) || fresh(buf)
    {
      Reserve(|s|);
      forall i | 0 <= i < |s| {
        buf[len + i] := s[i];
      }
      len := len + |s|;
      buf[len] := NUL;
    }

    /** jsonw_putc. */
    method Putc(c: byte)
      requires Valid()
      modifies this, buf
      ensures Valid() && Contents() == old(Contents()) + [c]
      ensures depth == old(depth)
      ensures buf == old(buf) || fresh(buf)
    {
      Append([c]);
    }

    /** jsonw_comma_if_needed. */
    method CommaIfNeeded()
      requires Valid()
      modifies this, buf
      ensures Valid() && State() == WithComma(old(State()))
      ensures depth == old(depth)
      ensures buf == old(buf) || fresh(buf)
    {
      if depth > 0 && needComma[depth - 1] {
        Putc(Comma);
      }
    }

    /** jsonw_mark_need_comma. */
    method MarkNeedComma()
      requires Valid()
      modifies needComma
      ensures Valid() && State() == Marked(old(State()))
    {
      if depth > 0 {
        needComma[depth - 1] := true;
      }
    }

    /** One turn of jsonw_string_escaped's loop: the switch on the byte `c`. */
    method EscapedByte(c: byte)
      requires Valid()
      modifies this, buf
      ensures Valid() && State() == Emit(old(State()), Escape(c))
      ensures depth == old(depth)
      ensures buf == old(buf) || fresh(buf)
    {
      if c == Quote {
        Append([Backslash, Quote]);
      } else if c == Backslash {
        Append([Backslash, Backslash]);
      } else if c == 8 {
        Append([Backslash, 'b' as int]);
      } else if c == 12 {
        Append([Backslash, 'f' as int]);
      } else if c == LF {
        Append([Backslash, 'n' as int]);
      } else if c == CR {
        Append([Backslash, 'r' as int]);
      } else if c == HT {
        Append([Backslash, 't' as int]);
      } else if c < 0x20 {
        // snprintf(u, sizeof(u), "\\u%04x", c)
        Append([Backslash, 'u' as int, '0' as int, '0' as int, HexDigit(c / 16), HexDigit(c % 16)]);
      } else {
        Putc(c);
      }
    }

    /** jsonw_string_escaped(s): the quoted, escaped form of the C string `s`. */
    method StringEscaped(s: seq<byte>)
      requires Valid() && NoNul(s)
      modifies this, buf
      ensures Valid() && State() == Emit(old(State()), Quoted(s))
      ensures depth == old(depth)
      ensures buf == old(buf) || fresh(buf)
    {
      ghost var start := Contents();
      Putc(Quote);
      var i := 0;
      while i < |s|
        invariant 0 <= i <= |s|
        invariant Valid() && depth == old(depth) && Stack() == old(Stack())
        invariant buf == old(buf) || fresh(buf)
        invariant Contents() == (start + [Quote]) + EscapeAll(s[..i])
      {
        EscapedNext(s, i, start + [Quote]);
        i := i + 1;
      }
      Putc(Quote);
      assert s[..i] == s;
      AssocQuoted(start, EscapeAll(s));
    }

    /** One turn of the escaping loop: the i-th byte of `s`, escaped, after
        the quote and the first i bytes. */
    method EscapedNext(s: seq<byte>, i: nat, ghost pre: seq<byte>)
      requires Valid() && i < |s| && Contents() == pre + EscapeAll(s[..i])
      modifies this, buf
      ensures Valid() && Contents() == pre + EscapeAll(s[..i + 1])
      ensures depth == old(depth) && Stack() == old(Stack())
      ensures buf == old(buf) || fresh(buf)
    {
      ghost var done := EscapeAll(s[..i]);
      EscapedByte(s[i]);
      EscapeAllSnoc(s[..i], s[i]);
      assert s[..i + 1] == s[..i] + [s[i]];
      Assoc(pre, done, Escape(s[i]));
    }

    /** jsonw_raw: the C string `raw`, verbatim. */
    method Raw(raw: seq<byte>)
      requires Valid() && NoNul(raw)
      modifies this, buf
      ensures Valid() && State() == Emit(old(State()), raw)
      ensures depth == old(depth)
      ensures buf == old(buf) || fresh(buf)
    {
      Append(raw);
    }

    /** jsonw_obj_begin.  The C code has no bound check on need_comma_stack,
        so a caller must not open more than 32 containers. */
    method ObjBegin()
      requires Valid() && depth < MaxDepth
      modifies this, buf, needComma
      ensures Valid() && State() == Begun(old(State()), LBrace)
      ensures buf == old(buf) || fresh(buf)
    {
      CommaIfNeeded();
      Putc(LBrace);
      needComma[depth] := false;
      depth := depth + 1;
    }

    /** jsonw_arr_begin. */
    method ArrBegin()
      requires Valid() && depth < MaxDepth
      modifies this, buf, needComma
      ensures Valid() && State() == Begun(old(State()), LBracket)
      ensures buf == old(buf) || fresh(buf)
    {
      CommaIfNeeded();
      Putc(LBracket);
      needComma[depth] := false;
      depth := depth + 1;
    }

    /** jsonw_obj_end: -1 and nothing written when no container is open. */
    method ObjEnd() returns (rc: int)
      requires Valid()
      modifies this, buf
      ensures buf == old(buf) || fresh(buf)
      ensures rc == (if old(depth) == 0 then -1 else 0)
      ensures Valid()
      ensures old(depth) == 0 ==> State() == old(State())
      ensures old(depth) > 0 ==> State() == Ended(old(State()), RBrace)
    {
      if depth == 0 {
        return -1;
      }
      depth := depth - 1;
      Putc(RBrace);
      return 0;
    }

    /** jsonw_arr_end. */
    method ArrEnd() returns (rc: int)
      requires Valid()
      modifies this, buf
      ensures buf == old(buf) || fresh(buf)
      ensures rc == (if old(depth) == 0 then -1 else 0)
      ensures Valid()
      ensures old(depth) == 0 ==> State() == old(State())
      ensures old(depth) > 0 ==> State() == Ended(old(State()), RBracket)
    {
      if depth == 0 {
        return -1;
      }
      depth := depth - 1;
      Putc(RBracket);
      return 0;
    }

    /** jsonw_key: a comma if due, the quoted key and a colon; the flag is not set. */
    method Key(k: seq<byte>)
      requires Valid() && NoNul(k)
      modifies this, buf
      ensures Valid() && State() == Keyed(old(State()), k)
      ensures depth == old(depth)
      ensures buf == old(buf) || fresh(buf)
    {
      CommaIfNeeded();
      StringEscaped(k);
      Putc(Colon);
    }

    /** jsonw_pair_string. */
    method PairString(k: seq<byte>, v: seq<byte>)
      requires Valid() && NoNul(k) && NoNul(v)
      modifies this, buf, needComma
      ensures Valid() && State() == Paired(old(State()), k, Quoted(v))
      ensures depth == old(depth)
      ensures buf == old(buf) || fresh(buf)
    {
      Key(k);
      StringEscaped(v);
      MarkNeedComma();
    }

    /** jsonw_pair_number, with `printf("%.10g")` given as `fmt`; its output
        fits the 64-byte scratch buffer. */
    method PairNumber(k: seq<byte>, v: real, fmt: real -> seq<byte>)
      requires Valid() && NoNul(k) && |fmt(v)| < 64
      modifies this, buf, needComma
      ensures Valid() && State() == Paired(old(State()), k, fmt(v))
      ensures depth == old(depth)
      ensures buf == old(buf) || fresh(buf)
    {
      Key(k);
      var tmp := fmt(v);
      Append(tmp);
      MarkNeedComma();
    }

    /** jsonw_pair_uint: the key and the decimal form of `v`. */
    method PairUint(k: seq<byte>, v: uint32)
      requires Valid() && NoNul(k)
      modifies this, buf, needComma
      ensures Valid() && State() == Paired(old(State()), k, Decimal(v))
      ensures depth == old(depth)
      ensures buf == old(buf) || fresh(buf)
    {
      Key(k);
      var tmp := Decimal(v);
      Append(tmp);
      MarkNeedComma();
    }

    /** jsonw_bool: `true` or `false`, raw; no comma and no flag. */
    method Bool(b: bool)
      requires Valid()
      modifies this, buf
      ensures Valid() && State() == Emit(old(State()), if b then Str("true") else Str("false"))
      ensures depth == old(depth)
      ensures buf == old(buf) || fresh(buf)
    {
      Raw(if b then Str("true") else Str("false"));
    }
  }

  /** The usage the header documents, on a fresh writer: the output is
      `{"k1":"v1","k2":n}`, a single string token for each key and value. */
  method TwoPairDocument(k1: seq<byte>, v1: seq<byte>, k2: seq<byte>, n: uint32) returns (out: seq<byte>)
    requires NoNul(k1) && NoNul(v1) && NoNul(k2)
    ensures out == TwoPairObject(k1, v1, k2, n)
    ensures var a := 1 + |Quoted(k1)|; var b := a + 1 + |Quoted(v1)|;
      b < |out| && StringToken(out[1..a]) == Some(k1) && StringToken(out[a + 1..b]) == Some(v1)
  {
    var w := new Writer();
    w.ObjBegin();
    w.PairString(k1, v1);
    w.PairUint(k2, n);
    var rc := w.ObjEnd();
    TwoPairs(k1, v1, k2, n);
    out := w.Contents();
    TwoPairTokens(k1, v1, k2, n);
    QuotedRoundTrip(k1);
    QuotedRoundTrip(v1);
  }

  /** Where the key and value tokens of the first pair sit in `{"k1":"v1",...}`. */
  lemma TwoPairTokens(k1: seq<byte>, v1: seq<byte>, k2: seq<byte>, n: nat)
    ensures var o := TwoPairObject(k1, v1, k2, n);
      var a := 1 + |Quoted(k1)|; var b := a + 1 + |Quoted(v1)|;
      b < |o| && o[1..a] == Quoted(k1) && o[a + 1..b] == Quoted(v1)
  {
    var q1, q2 := Quoted(k1), Quoted(v1);
    var p := [LBrace] + q1 + [Colon] + q2;
    var rest := [Comma] + Quoted(k2) + [Colon] + Decimal(n) + [RBrace];
    var a := 1 + |q1|;
    assert TwoPairObject(k1, v1, k2, n) == p + rest;
    assert p[1..a] == q1;
    assert p[a + 1..|p|] == q2;
  }
}
