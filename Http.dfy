/** The request-head parser and the header lookup.

    `Parse` states, as a function of the bytes received so far, what
    http_parse_request returns and fills in; `Cleared` states which bytes of
    the caller's buffer it overwrites with NUL.  `ParseRequest` is the C
    routine over the buffer in place, proved against both; `GetHeader` is the
    lookup loop.  The arithmetic is the C code's, including its three quirks:
    a stored header value loses its last byte, the body starts three bytes
    after the end of the header section, and an overlong request-line token
    runs on into the next field. */
module Http {
  import opened Bytes

  const MaxHeaders: nat := 24
  /** Sizes of the fixed `char` arrays; each holds one byte less plus a NUL. */
  const MaxMethod: nat := 8
  const MaxPath: nat := 256
  const MaxVersion: nat := 16
  const MaxName: nat := 32
  const MaxValue: nat := 256

  const Colon: byte := ':' as int

  /** The contents of `char name[32]` and `char value[256]`: one byte is kept for the NUL. */
  type Name = s: seq<byte> | |s| < MaxName
  type Value = s: seq<byte> | |s| < MaxValue

  /** http_header_t, as the two C strings it holds. */
  datatype Header = Header(name: Name, value: Value)

  /** http_request_t; `verb` is its `method` field.  `body` is the index in the caller's buffer where the
      body starts, None for the NULL pointer. */
  datatype Request = Request(
    verb: seq<byte>, path: seq<byte>, version: seq<byte>,
    headers: seq<Header>, body: Option<nat>, bodyLen: nat)

  /** The three outcomes of http_parse_request. */
  datatype Outcome = NeedMore | Malformed | Parsed(req: Request)

  /** The return code for an outcome: -2, -1 or 0. */
  function Code(o: Outcome): int {
    match o
    case NeedMore => -2
    case Malformed => -1
    case Parsed(_) => 0
  }

  // ---------------------------------------------------------------------------
  // Searching

  /** `\r\n\r\n` ends at index i. */
  predicate TerminatorAt(b: seq<byte>, i: nat) {
    3 <= i < |b| && b[i - 3] == CR && b[i - 2] == LF && b[i - 1] == CR && b[i] == LF
  }

  /** The first index from `i` on where `\r\n\r\n` ends, as the search loop of
      http_parse_request finds it. */
  function FindTerminator(b: seq<byte>, i: nat): (r: Option<nat>)
    ensures r.Some? ==> i <= r.value && TerminatorAt(b, r.value)
    decreases |b| - i
  {
    if i >= |b| then None
    else if TerminatorAt(b, i) then Some(i)
    else FindTerminator(b, i + 1)
  }

  /** `\r\n` starts at index i. */
  predicate CrlfAt(b: seq<byte>, i: nat) {
    i + 1 < |b| && b[i] == CR && b[i + 1] == LF
  }

  /** `strstr(b + i, "\r\n")` on a stretch without NUL: the first CRLF from i on. */
  function FindCrlf(b: seq<byte>, i: nat): (r: Option<nat>)
    ensures r.Some? ==> i <= r.value && CrlfAt(b, r.value)
    decreases |b| - i
  {
    if i >= |b| then None
    else if CrlfAt(b, i) then Some(i)
    else FindCrlf(b, i + 1)
  }

  /** The first index from i on where `line` holds `c`. */
  function IndexFrom(line: seq<byte>, c: byte, i: nat): (r: Option<nat>)
    requires i <= |line|
    ensures r.Some? ==> i <= r.value < |line| && line[r.value] == c
    decreases |line| - i
  {
    if i == |line| then None
    else if line[i] == c then Some(i)
    else IndexFrom(line, c, i + 1)
  }

  /** `strchr(line, c)` on a C string: the index of the first `c`. */
  function IndexOf(line: seq<byte>, c: byte): Option<nat> {
    IndexFrom(line, c, 0)
  }

  /** `strchr(line, ':')` finds a colon. */
  predicate HasColon(line: seq<byte>) {
    IndexOf(line, Colon).Some?
  }

  /** The search for `\r\n\r\n` stops at the first one, and finds none only
      when there is none. */
  lemma {:induction false} FindTerminatorFirst(b: seq<byte>, i: nat)
    ensures FindTerminator(b, i).Some? ==>
      forall j :: i <= j < FindTerminator(b, i).value ==> !TerminatorAt(b, j)
    ensures FindTerminator(b, i).None? ==> forall j :: i <= j ==> !TerminatorAt(b, j)
    decreases |b| - i
  {
    if i < |b| && !TerminatorAt(b, i) {
      FindTerminatorFirst(b, i + 1);
    }
  }

  /** strstr finds a CRLF no later than any CRLF there is. */
  lemma {:induction false} FindCrlfFinds(b: seq<byte>, i: nat, k: nat)
    requires i <= k && CrlfAt(b, k)
    ensures FindCrlf(b, i).Some? && FindCrlf(b, i).value <= k
    decreases k - i
  {
    if !CrlfAt(b, i) {
      FindCrlfFinds(b, i + 1, k);
    }
  }

  /** strchr finds the first `c`. */
  lemma {:induction false} IndexFromAt(line: seq<byte>, c: byte, i: nat, k: nat)
    requires i <= k < |line| && line[k] == c
    requires forall j :: i <= j < k ==> line[j] != c
    ensures IndexFrom(line, c, i) == Some(k)
    decreases k - i
  {
    if i < k {
      IndexFromAt(line, c, i + 1, k);
    }
  }

  // ---------------------------------------------------------------------------
  // The request line: sscanf(p, "%7s %255s %15s")

  /** Where white space (isspace) starting at i ends. */
  function SkipSpaces(l: seq<byte>, i: nat): (j: nat)
    requires i <= |l|
    ensures i <= j <= |l|
    ensures j < |l| ==> !IsSpace(l[j])
    decreases |l| - i
  {
    if i < |l| && IsSpace(l[i]) then SkipSpaces(l, i + 1) else i
  }

  /** Where a `%Ns` conversion stops that has reached i and may go on up to
      index `lim` (its start plus N): at white space, at the end, or at `lim`. */
  function TokenEnd(l: seq<byte>, i: nat, lim: nat): (e: nat)
    requires i <= |l| && i <= lim
    ensures i <= e <= |l| && e <= lim
    ensures i < |l| && i < lim && !IsSpace(l[i]) ==> i < e
    decreases |l| - i
  {
    if i == lim || i == |l| || IsSpace(l[i]) then i else TokenEnd(l, i + 1, lim)
  }

  /** One `%Ns` conversion from i: the token and where the scan goes on, or
      None when only white space is left. */
  function ScanToken(l: seq<byte>, i: nat, n: nat): (r: Option<(seq<byte>, nat)>)
    requires i <= |l| && n >= 1
    ensures r.Some? ==> 1 <= |r.value.0| <= n && r.value.1 <= |l|
  {
    var j := SkipSpaces(l, i);
    if j == |l| then None else
      var e := TokenEnd(l, j, j + n);
      Some((l[j..e], e))
  }

  /** sscanf(l, "%7s %255s %15s") == 3, with the three tokens. */
  function ScanRequestLine(l: seq<byte>): Option<(seq<byte>, seq<byte>, seq<byte>)> {
    var m := ScanToken(l, 0, MaxMethod - 1);
    if m.None? then None else
    var p := ScanToken(l, m.value.1, MaxPath - 1);
    if p.None? then None else
    var v := ScanToken(l, p.value.1, MaxVersion - 1);
    if v.None? then None else Some((m.value.0, p.value.0, v.value.0))
  }

  // ---------------------------------------------------------------------------
  // Header lines

  /** `vlen` after the loop that strips trailing spaces and tabs, for a line
      whose colon is at c: `colon[vlen]` is `line[c + vlen]`. */
  function TrimEnd(line: seq<byte>, c: nat, vlen: nat): (r: nat)
    requires c + vlen < |line|
    ensures r <= vlen
  {
    if vlen > 0 && IsBlank(line[c + vlen]) then TrimEnd(line, c, vlen - 1) else vlen
  }

  /** `off` after the loop that skips leading spaces and tabs: `colon[off]`
      is `line[c + off]`. */
  function SkipLead(line: seq<byte>, c: nat, off: nat, vlen: nat): (r: nat)
    requires 1 <= off && c + vlen < |line|
    ensures off <= r && (off <= vlen ==> r <= vlen) && (off > vlen ==> r == off)
    decreases vlen - off
  {
    if off < vlen && IsBlank(line[c + off]) then SkipLead(line, c, off + 1, vlen) else off
  }

  /** The text after the colon at c has something other than spaces and tabs
      in it.  Otherwise `vlen - off` wraps around in `size_t` and the copy
      reads past the line, so the outcome is undefined. */
  predicate ValueDefined(line: seq<byte>, c: nat)
    requires c < |line|
  {
    TrimEnd(line, c, |line| - c - 1) > 0
  }

  /** The value stored for the colon at c, by the index arithmetic of
      http_parse_request: the copy of `vlen - off` bytes from `colon + off`
      stops one byte short of the trimmed end `colon[vlen]`. */
  function StoredValue(line: seq<byte>, c: nat): (r: seq<byte>)
    requires c < |line| && ValueDefined(line, c)
    ensures |r| < MaxValue
  {
    var vlen := TrimEnd(line, c, |line| - c - 1);
    var off := SkipLead(line, c, 1, vlen);
    var vlen' := if vlen - off >= MaxValue then off + MaxValue - 1 else vlen;
    line[c + off..c + vlen']
  }

  /** The header stored for a line whose first colon is at c. */
  function HeaderOf(line: seq<byte>, c: nat): (h: Header)
    requires c < |line| && ValueDefined(line, c)
  {
    var nlen := if c >= MaxName then MaxName - 1 else c;
    Header(line[..nlen], StoredValue(line, c))
  }

  /** A header line with a colon whose value would be undefined. */
  predicate LineDefined(line: seq<byte>) {
    match IndexOf(line, Colon)
    case None => true
    case Some(c) => ValueDefined(line, c)
  }

  /** The header a line stores: a line without a colon stores none, and so
      does one whose value is undefined. */
  function Stored(line: seq<byte>): (r: seq<Header>)
    ensures |r| <= (if HasColon(line) then 1 else 0)
  {
    match IndexOf(line, Colon)
    case None => []
    case Some(c) => if ValueDefined(line, c) then [HeaderOf(line, c)] else []
  }

  /** `strstr(p, "\r\n")` from a line start p before the terminator at t. */
  function LineEnd(b: seq<byte>, p: nat, t: nat): (e: nat)
    requires TerminatorAt(b, t) && p <= t - 3
    ensures p <= e <= t - 3 && CrlfAt(b, e)
  {
    FindCrlfFinds(b, p, t - 3);
    FindCrlf(b, p).value
  }

  /** What the header loop does from line start p with hc headers stored:
      the headers it stores and the indices of the CRs it overwrites, in
      order, and whether every line it reads has a defined value. */
  datatype Scan = Scan(headers: seq<Header>, ends: seq<nat>, defined: bool)

  function Headers(b: seq<byte>, p: nat, t: nat, hc: nat): Scan
    requires TerminatorAt(b, t) && p <= t
    decreases t - p
  {
    if !(p + 2 < t && hc < MaxHeaders) then Scan([], [], true)
    else
      var e := LineEnd(b, p, t);
      var line := b[p..e];
      var rest := Headers(b, e + 2, t, if HasColon(line) then hc + 1 else hc);
      Scan(Stored(line) + rest.headers, [e] + rest.ends, LineDefined(line) && rest.defined)
  }

  // ---------------------------------------------------------------------------
  // The whole request head

  /** The index of the CRLF that ends the request line, given a terminator. */
  function RequestLineEnd(b: seq<byte>, t: nat): (e: nat)
    requires TerminatorAt(b, t)
    ensures e <= t - 3 && CrlfAt(b, e)
  {
    FindCrlfFinds(b, 0, t - 3);
    FindCrlf(b, 0).value
  }

  /** The inputs on which http_parse_request is defined: no NUL before the end
      of the header section (strstr, strchr and sscanf would stop there), and
      no header line it reads with a value of only spaces and tabs. */
  predicate WellDefined(b: seq<byte>) {
    match FindTerminator(b, 0)
    case None => true
    case Some(t) => HeadDefined(b[..t + 1], t)
  }

  /** WellDefined for the head `h`, whose final LF is at t. */
  predicate HeadDefined(h: seq<byte>, t: nat)
    requires TerminatorAt(h, t)
  {
    NoNul(h) &&
    var e := RequestLineEnd(h, t);
    ScanRequestLine(h[..e]).Some? ==> Headers(h, e + 2, t, 0).defined
  }

  /** http_parse_request on the first `len` bytes `b` of the buffer.  Once the
      terminator is found, only the head up to it and the length matter. */
  function Parse(b: seq<byte>): Outcome {
    match FindTerminator(b, 0)
    case None => NeedMore
    case Some(t) => ParseHead(b[..t + 1], t, |b|)
  }

  /** http_parse_request on a buffer of `len` bytes whose head is `h`, the
      terminator's final LF being at t. */
  function ParseHead(h: seq<byte>, t: nat, len: nat): Outcome
    requires TerminatorAt(h, t)
  {
    var e := RequestLineEnd(h, t);
    var line := ScanRequestLine(h[..e]);
    if line.None? then Malformed
    else
      Parsed(Request(line.value.0, line.value.1, line.value.2,
        Headers(h, e + 2, t, 0).headers, Body(len, t), BodyLength(len, t)))
  }

  /** `header_bytes = (end - buf) + 4`: the body pointer when that is below `len`. */
  function Body(len: nat, t: nat): Option<nat> {
    if t + 4 < len then Some(t + 4) else None
  }

  function BodyLength(len: nat, t: nat): nat {
    if t + 4 < len then len - (t + 4) else 0
  }

  /** The indices http_parse_request overwrites with NUL: the CR ending the
      request line, and that of every header line it reads. */
  function Cleared(b: seq<byte>): seq<nat> {
    match FindTerminator(b, 0)
    case None => []
    case Some(t) => ClearedHead(b[..t + 1], t)
  }

  function ClearedHead(h: seq<byte>, t: nat): seq<nat>
    requires TerminatorAt(h, t)
  {
    var e := RequestLineEnd(h, t);
    if ScanRequestLine(h[..e]).None? then [e] else [e] + Headers(h, e + 2, t, 0).ends
  }

  /** What memset(out, 0, sizeof *out) leaves: the request reported with -2. */
  const Zeroed := Request([], [], [], [], None, 0)

  // ---------------------------------------------------------------------------
  // Properties of the specification

  /** -2 exactly when no `\r\n\r\n` has arrived. */
  lemma {:induction false} NeedMoreIff(b: seq<byte>)
    ensures Parse(b) == NeedMore <==> forall i :: !TerminatorAt(b, i)
  {
    FindTerminatorFirst(b, 0);
    if FindTerminator(b, 0).Some? {
      assert TerminatorAt(b, FindTerminator(b, 0).value);
    }
  }

  /** More bytes after a complete head do not change what head is found. */
  lemma {:induction false} TerminatorStable(b: seq<byte>, more: seq<byte>, i: nat)
    requires FindTerminator(b, i).Some?
    ensures FindTerminator(b + more, i) == FindTerminator(b, i)
    decreases |b| - i
  {
    if !TerminatorAt(b, i) {
      TerminatorStable(b, more, i + 1);
    }
  }

  /** A search that finds the terminator at t finds it in the head up to t. */
  lemma {:induction false} FindTerminatorIs(b: seq<byte>, i: nat, t: nat)
    requires i <= t && TerminatorAt(b, t)
    requires forall j :: i <= j < t ==> !TerminatorAt(b, j)
    ensures FindTerminator(b, i) == Some(t)
    decreases t - i
  {
    if i < t {
      FindTerminatorIs(b, i + 1, t);
    }
  }

  /** The head of a buffer, cut after its first terminator, has that terminator first. */
  lemma {:induction false} HeadFirst(b: seq<byte>, t: nat)
    requires FindTerminator(b, 0) == Some(t)
    ensures TerminatorAt(b[..t + 1], t) && FindTerminator(b[..t + 1], 0) == Some(t)
  {
    var h := b[..t + 1];
    FindTerminatorFirst(b, 0);
    forall j | 0 <= j < t
      ensures !TerminatorAt(h, j)
    {
      assert !TerminatorAt(b, j);
    }
    FindTerminatorIs(h, 0, t);
  }

  /** The request-line tokens http_parse_request stores fit their fixed arrays
      and are not empty, and at most 24 headers are stored.  Header names and
      values fit theirs by their types, `Name` and `Value`. */
  lemma {:induction false} ParsedBounds(b: seq<byte>)
    requires Parse(b).Parsed?
    ensures var r := Parse(b).req;
      && 1 <= |r.verb| < MaxMethod && 1 <= |r.path| < MaxPath && 1 <= |r.version| < MaxVersion
      && |r.headers| <= MaxHeaders
  {
    var t := FindTerminator(b, 0).value;
    var h := b[..t + 1];
    ParseAt(b, t, h, Parse(b));
    HeadBounds(h, t, |b|, Parse(b).req);
  }

  /** ParsedBounds for the head `h`. */
  lemma {:induction false} HeadBounds(h: seq<byte>, t: nat, len: nat, r: Request)
    requires TerminatorAt(h, t) && ParseHead(h, t, len) == Parsed(r)
    ensures
      && 1 <= |r.verb| < MaxMethod && 1 <= |r.path| < MaxPath && 1 <= |r.version| < MaxVersion
      && |r.headers| <= MaxHeaders
  {
    var e := RequestLineEnd(h, t);
    ParsedFields(h, t, len, r);
    ScanBounds(h[..e]);
    HeadersBounded(h, e + 2, t, 0);
  }

  /** Each request-line token fits its array, NUL included, and is not empty. */
  lemma ScanBounds(l: seq<byte>)
    ensures var r := ScanRequestLine(l);
      r.Some? ==> 1 <= |r.value.0| < MaxMethod && 1 <= |r.value.1| < MaxPath && 1 <= |r.value.2| < MaxVersion
  {
  }

  /** The fields of a parsed head: the request-line tokens and the headers scanned after it. */
  lemma {:induction false} ParsedFields(h: seq<byte>, t: nat, len: nat, r: Request)
    requires TerminatorAt(h, t) && ParseHead(h, t, len) == Parsed(r)
    ensures var e := RequestLineEnd(h, t);
      && ScanRequestLine(h[..e]) == Some((r.verb, r.path, r.version))
      && r.headers == Headers(h, e + 2, t, 0).headers
  {
  }

  lemma {:induction false} HeadersBounded(b: seq<byte>, p: nat, t: nat, hc: nat)
    requires TerminatorAt(b, t) && p <= t && hc <= MaxHeaders
    ensures |Headers(b, p, t, hc).headers| + hc <= MaxHeaders
    decreases t - p
  {
    if p + 2 < t && hc < MaxHeaders {
      var e := LineEnd(b, p, t);
      var line := b[p..e];
      var hc' := if HasColon(line) then hc + 1 else hc;
      HeadersBounded(b, e + 2, t, hc');
    }
  }

  /** The header loop overwrites only CRs, each ending a line inside the head. */
  lemma {:induction false} HeadersEnds(b: seq<byte>, p: nat, t: nat, hc: nat)
    requires TerminatorAt(b, t) && p <= t
    ensures forall k :: 0 <= k < |Headers(b, p, t, hc).ends| ==>
      p <= Headers(b, p, t, hc).ends[k] <= t - 3 && b[Headers(b, p, t, hc).ends[k]] == CR
    decreases t - p
  {
    if p + 2 < t && hc < MaxHeaders {
      var e := LineEnd(b, p, t);
      var line := b[p..e];
      HeadersEnds(b, e + 2, t, if HasColon(line) then hc + 1 else hc);
    }
  }

  /** The body pointer is set `t + 4` bytes in, where t is the index of the
      terminator's final LF: three bytes past the real end of the head.  A
      head followed by `rest` parses as the head alone does, except that the
      body is `rest[3..]`, and none when `rest` has at most three bytes. */
  lemma {:induction false} BodyStartsLate(head: seq<byte>, rest: seq<byte>)
    requires Parse(head).Parsed? && FindTerminator(head, 0) == Some(|head| - 1)
    ensures Parse(head + rest) == Parsed(Parse(head).req.(
      body := if |rest| > 3 then Some(|head| + 3) else None,
      bodyLen := if |rest| > 3 then |rest| - 3 else 0))
  {
    ParseExtended(head, rest);
    BodyPast(|head|, |rest|, FindTerminator(head, 0).value);
  }

  /** The body fields when the head ends the first `n` bytes and `m` more follow. */
  lemma {:induction false} BodyPast(n: nat, m: nat, t: nat)
    requires t + 1 == n
    ensures Body(n + m, t) == if m > 3 then Some(n + 3) else None
    ensures BodyLength(n + m, t) == if m > 3 then m - 3 else 0
  {
  }


  /** A complete head followed by more bytes parses as the head alone, with
      the body fields computed from the new length. */
  lemma {:induction false} ParseExtended(head: seq<byte>, rest: seq<byte>)
    requires Parse(head).Parsed?
    ensures var t := FindTerminator(head, 0).value;
      Parse(head + rest) ==
        Parsed(Parse(head).req.(body := Body(|head| + |rest|, t), bodyLen := BodyLength(|head| + |rest|, t)))
  {
    var t := FindTerminator(head, 0).value;
    HeadPrefix(head, rest, t);
    SameHead(head, head + rest, t, |head| + |rest|);
  }

  /** Two buffers with the same head, the first of which parses, parse alike
      but for the body fields, which follow the length `len'` of the second. */
  lemma {:induction false} SameHead(b: seq<byte>, b': seq<byte>, t: nat, len': nat)
    requires FindTerminator(b, 0) == Some(t) && FindTerminator(b', 0) == Some(t)
    requires b'[..t + 1] == b[..t + 1] && len' == |b'| && Parse(b).Parsed?
    ensures Parse(b') == Parsed(Parse(b).req.(body := Body(len', t), bodyLen := BodyLength(len', t)))
  {
    var h := b[..t + 1];
    var o, o' := Parse(b), Parse(b');
    ParseAt(b, t, h, o);
    ParseAt(b', t, h, o');
    ParseHeadLength(h, t, |b|, len', o, o');
  }

  /** More bytes after the terminator leave the head as it was. */
  lemma {:induction false} HeadPrefix(head: seq<byte>, rest: seq<byte>, t: nat)
    requires FindTerminator(head, 0) == Some(t)
    ensures FindTerminator(head + rest, 0) == Some(t) && (head + rest)[..t + 1] == head[..t + 1]
  {
    TerminatorStable(head, rest, 0);
  }

  /** The outcome `o` of a buffer `b` whose terminator is at t is that of its head `h`. */
  lemma {:induction false} ParseAt(b: seq<byte>, t: nat, h: seq<byte>, o: Outcome)
    requires FindTerminator(b, 0) == Some(t) && h == b[..t + 1] && o == Parse(b)
    ensures TerminatorAt(h, t) && o == ParseHead(h, t, |b|)
  {
    assert TerminatorAt(h, t);
  }

  /** The NULs `z` written into a buffer `b` whose terminator is at t are those for its head `h`. */
  lemma {:induction false} ClearedAtHead(b: seq<byte>, t: nat, h: seq<byte>, z: seq<nat>)
    requires FindTerminator(b, 0) == Some(t) && h == b[..t + 1] && z == Cleared(b)
    ensures TerminatorAt(h, t) && z == ClearedHead(h, t)
  {
  }

  /** A buffer on which the parser is defined has a head on which it is defined. */
  lemma {:induction false} DefinedAtHead(b: seq<byte>, t: nat, h: seq<byte>)
    requires FindTerminator(b, 0) == Some(t) && h == b[..t + 1] && WellDefined(b)
    ensures TerminatorAt(h, t) && HeadDefined(h, t)
  {
  }

  /** The length of the buffer only sets the body of a parsed head. */
  lemma {:induction false} ParseHeadLength(h: seq<byte>, t: nat, len: nat, len': nat, o: Outcome, o': Outcome)
    requires TerminatorAt(h, t) && o == ParseHead(h, t, len) && o' == ParseHead(h, t, len') && o.Parsed?
    ensures o' == Parsed(o.req.(body := Body(len', t), bodyLen := BodyLength(len', t)))
  {
  }

  /** Every byte http_parse_request overwrites is a CR inside the head. */
  lemma {:induction false} ClearedAreCrs(b: seq<byte>)
    ensures forall k :: 0 <= k < |Cleared(b)| ==> Cleared(b)[k] < |b| && b[Cleared(b)[k]] == CR
  {
    if FindTerminator(b, 0).Some? {
      var t := FindTerminator(b, 0).value;
      var h := b[..t + 1];
      var z := Cleared(b);
      ClearedAtHead(b, t, h, z);
      ClearedHeadCrs(h, t);
      forall k | 0 <= k < |z|
        ensures z[k] < |b| && b[z[k]] == CR
      {
        assert h[z[k]] == CR;
      }
    }
  }

  /** ClearedAreCrs for the head `h`. */
  lemma {:induction false} ClearedHeadCrs(h: seq<byte>, t: nat)
    requires TerminatorAt(h, t)
    ensures forall k :: 0 <= k < |ClearedHead(h, t)| ==>
      ClearedHead(h, t)[k] <= t - 3 && h[ClearedHead(h, t)[k]] == CR
  {
    var e := RequestLineEnd(h, t);
    var rest := Headers(h, e + 2, t, 0);
    HeadersEnds(h, e + 2, t, 0);
    var z := ClearedHead(h, t);
    assert z == [e] || z == [e] + rest.ends;
    forall k | 0 <= k < |z|
      ensures z[k] <= t - 3 && h[z[k]] == CR
    {
      if k > 0 {
        assert z[k] == rest.ends[k - 1];
      }
    }
  }

  /** A stored value has its leading and trailing spaces and tabs removed and
      then loses its last byte, and is cut to 255 bytes: for a value `m` that
      neither starts nor ends with a blank, padded with blanks `a` and `z`,
      the stored value is `m` without its last byte. */
  lemma {:induction false} PaddedHeader(name: seq<byte>, a: seq<byte>, m: seq<byte>, z: seq<byte>)
    requires Colon !in name
    requires forall i :: 0 <= i < |a| ==> IsBlank(a[i])
    requires forall i :: 0 <= i < |z| ==> IsBlank(z[i])
    requires |m| >= 1 && !IsBlank(m[0]) && !IsBlank(m[|m| - 1])
    ensures var line := name + [Colon] + a + m + z;
      IndexOf(line, Colon) == Some(|name|) &&
      ValueDefined(line, |name|) &&
      HeaderOf(line, |name|) == Header(
        if |name| >= MaxName then name[..MaxName - 1] else name,
        if |m| - 1 >= MaxValue then m[..MaxValue - 1] else m[..|m| - 1])
  {
    var line := name + [Colon] + a + m + z;
    var c := |name|;
    assert line[..c] == name && line[c] == Colon;
    forall i | 0 <= i < c
      ensures line[i] != Colon
    {
      assert line[i] == name[i];
    }
    IndexFromAt(line, Colon, 0, c);
    assert line[c + 1..] == a + m + z;
    ValueDropsLast(line, c, a, m, z);
  }

  /** The value part of the above: a line whose text after the colon at c is
      `a + m + z` stores `m` without its last byte, cut to 255 bytes. */
  lemma {:induction false} ValueDropsLast(line: seq<byte>, c: nat, a: seq<byte>, m: seq<byte>, z: seq<byte>)
    requires c < |line| && line[c + 1..] == a + m + z
    requires forall i :: 0 <= i < |a| ==> IsBlank(a[i])
    requires forall i :: 0 <= i < |z| ==> IsBlank(z[i])
    requires |m| >= 1 && !IsBlank(m[0]) && !IsBlank(m[|m| - 1])
    ensures ValueDefined(line, c)
    ensures StoredValue(line, c) == if |m| - 1 >= MaxValue then m[..MaxValue - 1] else m[..|m| - 1]
  {
    var v := a + m + z;
    var n := |line| - c - 1;
    assert forall j :: 0 <= j < |v| ==> line[c + 1 + j] == v[j];
    forall j | c + |a| + |m| < j <= c + n
      ensures IsBlank(line[j])
    {
      assert line[j] == v[j - c - 1] == z[j - c - 1 - |a| - |m|];
    }
    assert line[c + |a| + |m|] == v[|a| + |m| - 1] == m[|m| - 1];
    TrimEndFrom(line, c, n, |a| + |m|);
    forall j | c + 1 <= j < c + |a| + 1
      ensures IsBlank(line[j])
    {
      assert line[j] == v[j - c - 1] == a[j - c - 1];
    }
    assert line[c + |a| + 1] == v[|a|] == m[0];
    SkipLeadFrom(line, c, 1, |a| + |m|, |a| + 1);
    var k := if |m| - 1 >= MaxValue then MaxValue - 1 else |m| - 1;
    assert StoredValue(line, c) == line[c + |a| + 1..c + |a| + 1 + k];
    assert line[c + |a| + 1..c + |a| + 1 + k] == m[..k] by {
      assert forall j :: 0 <= j < k ==> line[c + |a| + 1 + j] == v[|a| + j] == m[j];
    }
  }

  lemma {:induction false} TrimEndFrom(line: seq<byte>, c: nat, n: nat, k: nat)
    requires 1 <= k <= n && c + n < |line| && !IsBlank(line[c + k])
    requires forall j :: c + k < j <= c + n ==> IsBlank(line[j])
    ensures TrimEnd(line, c, n) == k
    decreases n
  {
    if n > k {
      TrimEndFrom(line, c, n - 1, k);
    }
  }

  lemma {:induction false} SkipLeadFrom(line: seq<byte>, c: nat, off: nat, vlen: nat, k: nat)
    requires 1 <= off <= k <= vlen && c + vlen < |line|
    requires forall j :: c + off <= j < c + k ==> IsBlank(line[j])
    requires k < vlen ==> !IsBlank(line[c + k])
    ensures SkipLead(line, c, off, vlen) == k
    decreases vlen - off
  {
    if off < k {
      SkipLeadFrom(line, c, off + 1, vlen, k);
    }
  }

  /** `Host: x` stores the value "" (the only byte of the value is the one dropped). */
  lemma HostExample()
    ensures IndexOf(Str("Host: x"), Colon) == Some(4)
    ensures HeaderOf(Str("Host: x"), 4) == Header(Str("Host"), [])
  {
    var line := Str("Host: x");
    assert line == Str("Host") + [Colon] + [SP] + ['x' as int] + [];
    PaddedHeader(Str("Host"), [SP], ['x' as int], []);
  }

  /** No byte of `s` is white space. */
  predicate NoSpace(s: seq<byte>) {
    forall i :: 0 <= i < |s| ==> !IsSpace(s[i])
  }

  lemma {:induction false} SkipSpacesAt(l: seq<byte>, i: nat, j: nat)
    requires i <= j < |l| && !IsSpace(l[j])
    requires forall k :: i <= k < j ==> IsSpace(l[k])
    ensures SkipSpaces(l, i) == j
    decreases j - i
  {
    if i < j {
      SkipSpacesAt(l, i + 1, j);
    }
  }

  lemma {:induction false} TokenEndAt(l: seq<byte>, i: nat, lim: nat, e: nat)
    requires i <= e <= |l| && e <= lim
    requires forall k :: i <= k < e ==> !IsSpace(l[k])
    requires e < |l| && e < lim ==> IsSpace(l[e])
    ensures TokenEnd(l, i, lim) == e
    decreases e - i
  {
    if i < e {
      TokenEndAt(l, i + 1, lim, e);
    }
  }

  /** A `%Ns` conversion from i that skips white space up to j and then
      reads the token `tok` found there, stopping at white space, at the
      end, or after n bytes. */
  lemma {:induction false} ScanTokenAt(l: seq<byte>, i: nat, j: nat, tok: seq<byte>, n: nat)
    requires i <= j && j + |tok| <= |l| && l[j..j + |tok|] == tok
    requires 1 <= |tok| <= n && NoSpace(tok)
    requires forall k :: i <= k < j ==> IsSpace(l[k])
    requires j + |tok| < |l| && |tok| < n ==> IsSpace(l[j + |tok|])
    ensures ScanToken(l, i, n) == Some((tok, j + |tok|))
  {
    assert l[j] == tok[0];
    SkipSpacesAt(l, i, j);
    forall k | j <= k < j + |tok|
      ensures !IsSpace(l[k])
    {
      assert l[k] == tok[k - j];
    }
    TokenEndAt(l, j, j + n, j + |tok|);
  }

  /** A request line of three space-separated tokens within their limits
      scans back into the same three tokens. */
  lemma {:induction false} ScanRequestLineTokens(m: seq<byte>, path: seq<byte>, ver: seq<byte>)
    requires 1 <= |m| < MaxMethod && 1 <= |path| < MaxPath && 1 <= |ver| < MaxVersion
    requires NoSpace(m) && NoSpace(path) && NoSpace(ver)
    ensures ScanRequestLine(m + [SP] + path + [SP] + ver) == Some((m, path, ver))
  {
    var l := m + [SP] + path + [SP] + ver;
    var i, j := |m|, |m| + 1 + |path|;
    assert l[0..i] == m && l[i] == SP;
    assert l[i + 1..j] == path && l[j] == SP;
    assert l[j + 1..|l|] == ver;
    ScanSeparated(l, m, i, path, j, ver);
  }

  lemma {:induction false} ScanSeparated(l: seq<byte>, m: seq<byte>, i: nat, path: seq<byte>, j: nat, ver: seq<byte>)
    requires 1 <= |m| < MaxMethod && 1 <= |path| < MaxPath && 1 <= |ver| < MaxVersion
    requires NoSpace(m) && NoSpace(path) && NoSpace(ver)
    requires i == |m| && j == i + 1 + |path| && |l| == j + 1 + |ver|
    requires l[0..i] == m && l[i] == SP && l[i + 1..j] == path && l[j] == SP && l[j + 1..|l|] == ver
    ensures ScanRequestLine(l) == Some((m, path, ver))
  {
    ScanTokenAt(l, 0, 0, m, MaxMethod - 1);
    ScanAfterSpace(l, i, path, MaxPath - 1);
    ScanAfterSpace(l, j, ver, MaxVersion - 1);
    ScanThree(l, m, i, path, j, ver, |l|);
  }

  /** A conversion that starts at a single space reads the token right after it. */
  lemma {:induction false} ScanAfterSpace(l: seq<byte>, i: nat, tok: seq<byte>, n: nat)
    requires i + 1 + |tok| <= |l| && l[i] == SP && l[i + 1..i + 1 + |tok|] == tok
    requires 1 <= |tok| <= n && NoSpace(tok)
    requires i + 1 + |tok| < |l| ==> l[i + 1 + |tok|] == SP
    ensures ScanToken(l, i, n) == Some((tok, i + 1 + |tok|))
  {
    ScanTokenAt(l, i, i + 1, tok, n);
  }

  /** sscanf succeeds when each of the three conversions finds a token. */
  lemma {:induction false} ScanThree(l: seq<byte>, m: seq<byte>, i: nat, path: seq<byte>, j: nat, ver: seq<byte>, k: nat)
    requires i <= |l| && j <= |l|
    requires ScanToken(l, 0, MaxMethod - 1) == Some((m, i))
    requires ScanToken(l, i, MaxPath - 1) == Some((path, j))
    requires ScanToken(l, j, MaxVersion - 1) == Some((ver, k))
    ensures ScanRequestLine(l) == Some((m, path, ver))
  {
  }

  /** `%7s` stops after seven bytes and `%255s` goes on from there: a method
      token of eight bytes puts its last byte in `path` and the real path in
      `version`, and the line still scans as three tokens. */
  lemma {:induction false} OverlongMethodSpills(m: seq<byte>, path: seq<byte>, rest: seq<byte>)
    requires |m| == MaxMethod && 1 <= |path| < MaxVersion
    requires NoSpace(m) && NoSpace(path)
    ensures ScanRequestLine(m + [SP] + path + [SP] + rest) == Some((m[..7], [m[7]], path))
  {
    var l := m + [SP] + path + [SP] + rest;
    var j := |m| + 1 + |path|;
    assert l[0..7] == m[..7];
    ScanTokenAt(l, 0, 0, m[..7], MaxMethod - 1);
    assert l[7..8] == [m[7]] && l[8] == SP;
    ScanTokenAt(l, 7, 7, [m[7]], MaxPath - 1);
    assert l[9..j] == path && l[j] == SP;
    ScanTokenAt(l, 8, 9, path, MaxVersion - 1);
    ScanThree(l, m[..7], 7, [m[7]], 8, path, j);
  }

  // ---------------------------------------------------------------------------
  // http_parse_request over the caller's buffer

  /** A header line read by the loop is never empty: a CRLF right at a line
      start would close a `\r\n\r\n` before the first one.  So the
      `line_end == p` branch of the loop is never taken. */
  lemma {:induction false} LineNotEmpty(b: seq<byte>, p: nat, t: nat)
    requires FindTerminator(b, 0) == Some(t) && 2 <= p && p + 2 < t
    requires CrlfAt(b, p - 2)
    ensures LineEnd(b, p, t) > p
  {
    if CrlfAt(b, p) {
      FindTerminatorFirst(b, 0);
      assert TerminatorAt(b, p + 1);
    }
  }

  /** `strstr` from p sees only bytes from p on. */
  lemma {:induction false} FindCrlfAgree(b: seq<byte>, c: seq<byte>, i: nat)
    requires |b| == |c| && forall j :: i <= j < |b| ==> b[j] == c[j]
    ensures FindCrlf(b, i) == FindCrlf(c, i)
    decreases |b| - i
  {
    if i < |b| && !CrlfAt(b, i) {
      FindCrlfAgree(b, c, i + 1);
    }
  }

  /** The search loop for `\r\n\r\n`. */
  method FindEnd(buf: array<byte>, len: nat) returns (t: Option<nat>)
    requires len <= buf.Length
    ensures t == FindTerminator(buf[..len], 0)
  {
    ghost var b := buf[..len];
    assert FindTerminator(b, 0) == FindTerminator(b, 3) by {
      assert FindTerminator(b, 0) == FindTerminator(b, 1);
      assert FindTerminator(b, 1) == FindTerminator(b, 2);
      assert FindTerminator(b, 2) == FindTerminator(b, 3);
    }
    var i := 3;
    while i < len
      invariant 3 <= i
      invariant FindTerminator(b, 0) == FindTerminator(b, i)
    {
      if buf[i - 3] == CR && buf[i - 2] == LF && buf[i - 1] == CR && buf[i] == LF {
        assert TerminatorAt(b, i);
        return Some(i);
      }
      i := i + 1;
    }
    return None;
  }

  /** The body of `if (colon)`: strip trailing and then leading spaces and
      tabs from the text after the colon, cap both lengths, and copy. */
  method StoreHeader(line: seq<byte>, c: nat) returns (h: Header)
    requires c < |line| && ValueDefined(line, c)
    ensures h == HeaderOf(line, c)
  {
    var nlen := c;
    var vlen: nat := |line| - c - 1;
    while vlen > 0 && IsBlank(line[c + vlen])
      invariant c + vlen < |line|
      invariant TrimEnd(line, c, vlen) == TrimEnd(line, c, |line| - c - 1)
    {
      vlen := vlen - 1;
    }
    var off := 1;
    while off < vlen && IsBlank(line[c + off])
      invariant 1 <= off <= vlen
      invariant SkipLead(line, c, off, vlen) == SkipLead(line, c, 1, vlen)
    {
      off := off + 1;
    }
    if nlen >= MaxName {
      nlen := MaxName - 1;
    }
    if vlen - off >= MaxValue {
      vlen := off + MaxValue - 1;
    }
    h := Header(line[..nlen], line[c + off..c + vlen]);
  }

  /** The bytes of `a` and of `b` agree except that the indices in `z` hold NUL in `a`. */
  ghost predicate ClearedAt(a: seq<byte>, b: seq<byte>, z: seq<nat>) {
    |a| == |b| && forall j :: 0 <= j < |a| ==> a[j] == if j in z then NUL else b[j]
  }

  lemma {:induction false} ClearedAtSnoc(a: seq<byte>, b: seq<byte>, z: seq<nat>, k: nat)
    requires ClearedAt(a, b, z) && k < |a|
    ensures ClearedAt(a[k := NUL], b, z + [k])
  {
  }

  /** Above the last index cleared so far, the buffer still holds what it held. */
  lemma {:induction false} ClearedBelow(a: seq<byte>, b: seq<byte>, z: seq<nat>, p: nat, len: nat)
    requires ClearedAt(a, b, z) && p <= len <= |a|
    requires forall k :: 0 <= k < |z| ==> z[k] < p
    ensures a[p..len] == b[p..len]
  {
    forall j | p <= j < len
      ensures a[j] == b[j]
    {
      assert j !in z;
    }
  }

  /** One step of the header loop, unfolded: `s` is the scan from the line at
      p, which ends at le, and `rest` the scan from the line after it. */
  lemma {:induction false} HeadersStep(b: seq<byte>, p: nat, t: nat, hc: nat, le: nat, hc': nat, s: Scan, rest: Scan)
    requires TerminatorAt(b, t) && p + 2 < t && hc < MaxHeaders
    requires le == LineEnd(b, p, t) && hc' == (if HasColon(b[p..le]) then hc + 1 else hc)
    requires s == Headers(b, p, t, hc) && rest == Headers(b, le + 2, t, hc')
    ensures s.headers == Stored(b[p..le]) + rest.headers && s.ends == [le] + rest.ends
    ensures s.defined == (LineDefined(b[p..le]) && rest.defined)
  {
  }

  /** One header line: its CRLF is found and overwritten, and its header, if
      it has a colon, is stored. */
  method ReadLine(buf: array<byte>, len: nat, ghost b: seq<byte>, p: nat, t: nat) returns (le: nat, h: seq<Header>)
    requires len <= buf.Length && |b| == len
    requires FindTerminator(b, 0) == Some(t) && 2 <= p && p + 2 < t && CrlfAt(b, p - 2)
    requires buf[p..len] == b[p..]
    requires LineDefined(b[p..LineEnd(b, p, t)])
    modifies buf
    ensures le == LineEnd(b, p, t) && p < le
    ensures buf[..] == old(buf[..])[le := NUL]
    ensures h == Stored(b[p..le])
    ensures (h != []) == HasColon(b[p..le])
  {
    assert forall j :: p <= j < len ==> buf[..len][j] == buf[p..len][j - p];
    FindCrlfAgree(buf[..len], b, p);
    FindCrlfFinds(b, p, t - 3);
    le := FindCrlf(buf[..len], p).value;
    LineNotEmpty(b, p, t);
    var ln := buf[p..le];
    assert ln == b[p..le];
    buf[le] := NUL;
    var colon := IndexOf(ln, Colon);
    if colon.Some? {
      var hd := StoreHeader(ln, colon.value);
      h := [hd];
    } else {
      h := [];
    }
  }

  /** Where the header loop stands: lines from `e + 2` up to p have been
      read, clearing the CRs at `ends`, all below p. */
  ghost predicate Reached(b: seq<byte>, t: nat, e: nat, p: nat, ends: seq<nat>) {
    && e + 2 <= p <= t && CrlfAt(b, p - 2)
    && (forall k :: 0 <= k < |ends| ==> ends[k] < p)
  }

  /** What the header loop has stored and cleared so far, `hs` and `ends`,
      followed by what `Headers(b, p, t, hc)` says is left, is what it does
      from the first header line. */
  ghost predicate Pending(b: seq<byte>, t: nat, e: nat, p: nat, hc: nat, hs: seq<Header>, ends: seq<nat>) {
    && TerminatorAt(b, t) && e + 2 <= t && p <= t
    && hs + Headers(b, p, t, hc).headers == Headers(b, e + 2, t, 0).headers
    && ends + Headers(b, p, t, hc).ends == [e] + Headers(b, e + 2, t, 0).ends
    && Headers(b, p, t, hc).defined
  }

  lemma {:induction false} ReachedStep(b: seq<byte>, t: nat, e: nat, p: nat, ends: seq<nat>, le: nat)
    requires TerminatorAt(b, t) && Reached(b, t, e, p, ends) && p + 2 < t
    requires le == LineEnd(b, p, t)
    ensures Reached(b, t, e, le + 2, ends + [le])
  {
    assert forall k :: 0 <= k < |ends + [le]| ==> (ends + [le])[k] < le + 2;
  }

  lemma {:induction false} PendingStep(b: seq<byte>, t: nat, e: nat, p: nat, hc: nat, hs: seq<Header>, ends: seq<nat>,
                    le: nat, h: seq<Header>)
    requires TerminatorAt(b, t) && e + 2 <= t && p + 2 < t && hc < MaxHeaders
    requires Pending(b, t, e, p, hc, hs, ends)
    requires le == LineEnd(b, p, t) && h == Stored(b[p..le])
    ensures Pending(b, t, e, le + 2, if HasColon(b[p..le]) then hc + 1 else hc, hs + h, ends + [le])
  {
    var hc' := if HasColon(b[p..le]) then hc + 1 else hc;
    var s, rest := Headers(b, p, t, hc), Headers(b, le + 2, t, hc');
    HeadersStep(b, p, t, hc, le, hc', s, rest);
    PendingAdvance(hs, ends, s, h, le, rest, Headers(b, e + 2, t, 0), e);
  }

  /** The bookkeeping of PendingStep on scan values: moving the first line's
      header and CR from the scan still to come onto what is stored. */
  lemma PendingAdvance(hs: seq<Header>, ends: seq<nat>, s: Scan, h: seq<Header>, le: nat, rest: Scan, whole: Scan, e: nat)
    requires hs + s.headers == whole.headers && ends + s.ends == [e] + whole.ends
    requires s.headers == h + rest.headers && s.ends == [le] + rest.ends
    ensures (hs + h) + rest.headers == whole.headers && (ends + [le]) + rest.ends == [e] + whole.ends
  {
    Assoc(hs, h, rest.headers);
    Assoc(ends, [le], rest.ends);
  }

  /** The line the loop reads next has a defined value. */
  lemma {:induction false} LineDefinedNext(b: seq<byte>, t: nat, e: nat, p: nat, hc: nat, hs: seq<Header>, ends: seq<nat>)
    requires TerminatorAt(b, t) && p + 2 < t && hc < MaxHeaders
    requires Pending(b, t, e, p, hc, hs, ends)
    ensures LineDefined(b[p..LineEnd(b, p, t)])
  {
    var le := LineEnd(b, p, t);
    var hc' := if HasColon(b[p..le]) then hc + 1 else hc;
    HeadersStep(b, p, t, hc, le, hc', Headers(b, p, t, hc), Headers(b, le + 2, t, hc'));
  }

  /** What reading the line at p does to the loop's invariants: the line
      ends at le and stores h. */
  lemma {:induction false} TurnStep(b: seq<byte>, t: nat, e: nat, p: nat, hc: nat, hs: seq<Header>, ends: seq<nat>,
                                    le: nat, h: seq<Header>, p': nat, hc': nat, hs': seq<Header>, ends': seq<nat>)
    requires TerminatorAt(b, t) && p + 2 < t && hc < MaxHeaders
    requires Reached(b, t, e, p, ends) && Pending(b, t, e, p, hc, hs, ends)
    requires le == LineEnd(b, p, t) && h == Stored(b[p..le])
    requires p' == le + 2 && hs' == hs + h && ends' == ends + [le]
    requires hc' == if HasColon(b[p..le]) then hc + 1 else hc
    ensures Reached(b, t, e, p', ends') && Pending(b, t, e, p', hc', hs', ends')
  {
    ReachedStep(b, t, e, p, ends, le);
    PendingStep(b, t, e, p, hc, hs, ends, le, h);
  }

  /** One turn of the header loop: read the line at p, keeping the loop's invariants. */
  method HeaderTurn(buf: array<byte>, len: nat, ghost b: seq<byte>, ghost whole: seq<byte>, e: nat, t: nat,
                    p: nat, hc: nat, hs: seq<Header>, ghost ends: seq<nat>)
      returns (p': nat, hc': nat, hs': seq<Header>, ghost ends': seq<nat>)
    requires len <= buf.Length && |b| == len && |whole| == buf.Length && b == whole[..len]
    requires FindTerminator(b, 0) == Some(t) && p + 2 < t && hc < MaxHeaders
    requires Reached(b, t, e, p, ends) && Pending(b, t, e, p, hc, hs, ends)
    requires ClearedAt(buf[..], whole, ends)
    modifies buf
    ensures p < p'
    ensures Reached(b, t, e, p', ends') && Pending(b, t, e, p', hc', hs', ends')
    ensures ClearedAt(buf[..], whole, ends')
  {
    ClearedBelow(buf[..], whole, ends, p, len);
    assert whole[p..len] == b[p..];
    LineDefinedNext(b, t, e, p, hc, hs, ends);
    ghost var before := buf[..];
    var le, h := ReadLine(buf, len, b, p, t);
    ClearedAtSnoc(before, whole, ends, le);
    p', hc', hs', ends' := le + 2, if h != [] then hc + 1 else hc, hs + h, ends + [le];
    TurnStep(b, t, e, p, hc, hs, ends, le, h, p', hc', hs', ends');
  }

  /** The header loop of http_parse_request, from the line after the request
      line, over the head `b` (the first `len` bytes of the buffer). */
  method ReadHeaders(buf: array<byte>, len: nat, ghost b: seq<byte>, ghost whole: seq<byte>, e: nat, t: nat)
      returns (hs: seq<Header>)
    requires len <= buf.Length && |b| == len && |whole| == buf.Length && b == whole[..len]
    requires FindTerminator(b, 0) == Some(t) && e + 2 <= t && CrlfAt(b, e)
    requires Headers(b, e + 2, t, 0).defined
    requires ClearedAt(buf[..], whole, [e])
    modifies buf
    ensures hs == Headers(b, e + 2, t, 0).headers
    ensures ClearedAt(buf[..], whole, [e] + Headers(b, e + 2, t, 0).ends)
  {
    var p := e + 2;
    var hc: nat := 0;
    hs := [];
    ghost var ends: seq<nat> := [e];
    assert TerminatorAt(b, t);
    assert [] + Headers(b, p, t, hc).headers == Headers(b, p, t, hc).headers;
    while p + 2 < t && hc < MaxHeaders
      invariant Reached(b, t, e, p, ends)
      invariant Pending(b, t, e, p, hc, hs, ends)
      invariant ClearedAt(buf[..], whole, ends)
      decreases t - p
    {
      p, hc, hs, ends := HeaderTurn(buf, len, b, whole, e, t, p, hc, hs, ends);
    }
    assert Headers(b, p, t, hc) == Scan([], [], true);
  }

  /** http_parse_request(buf, len, out): the return code and `*out` as
      `Parse` states them, and the buffer with the NULs of `Cleared` written
      into it.  On -1 the fields that sscanf filled before it failed are not
      stated. */
  method ParseRequest(buf: array<byte>, len: nat) returns (rc: int, req: Request)
    requires len <= buf.Length && WellDefined(buf[..len])
    modifies buf
    ensures rc == Code(Parse(old(buf[..len])))
    ensures rc == 0 ==> req == Parse(old(buf[..len])).req
    ensures rc == -2 ==> req == Zeroed
    ensures ClearedAt(buf[..], old(buf[..]), Cleared(old(buf[..len])))
  {
    ghost var b := buf[..len];
    ghost var o, z := Parse(b), Cleared(b);
    var end := FindEnd(buf, len);
    if end.None? {
      assert ClearedAt(buf[..], old(buf[..]), []);
      return -2, Zeroed;
    }
    var t := end.value;
    ghost var h := b[..t + 1];
    HeadFirst(b, t);
    ParseAt(b, t, h, o);
    ClearedAtHead(b, t, h, z);
    DefinedAtHead(b, t, h);
    assert h == buf[..t + 1];
    rc, req := ParseFound(buf, len, h, t, o, z);
  }


  /** The request line: its CRLF, found from the start of the buffer, is
      overwritten, and the line before it is scanned. */
  method ReadRequestLine(buf: array<byte>, ghost h: seq<byte>, t: nat) returns (e: nat, line: Option<(seq<byte>, seq<byte>, seq<byte>)>)
    requires t < buf.Length && h == buf[..t + 1] && TerminatorAt(h, t)
    modifies buf
    ensures e == RequestLineEnd(h, t) && line == ScanRequestLine(h[..e])
    ensures buf[..] == old(buf[..])[e := NUL]
  {
    e := RequestLineEnd(buf[..t + 1], t);
    buf[e] := NUL;
    assert buf[..e] == h[..e];
    line := ScanRequestLine(buf[..e]);
  }

  lemma {:induction false} ClearedOne(a: seq<byte>, e: nat)
    requires e < |a|
    ensures ClearedAt(a[e := NUL], a, [e])
  {
  }

  /** The outcome and the cleared indices when the request line ending at e does not scan. */
  lemma {:induction false} MalformedHead(h: seq<byte>, t: nat, len: nat, e: nat)
    requires TerminatorAt(h, t) && e == RequestLineEnd(h, t) && ScanRequestLine(h[..e]).None?
    ensures ParseHead(h, t, len) == Malformed && ClearedHead(h, t) == [e]
  {
  }

  /** The outcome and the cleared indices when the request line ending at e scans. */
  lemma {:induction false} ParsedHead(h: seq<byte>, t: nat, len: nat, e: nat, line: Option<(seq<byte>, seq<byte>, seq<byte>)>,
                                      hs: seq<Header>, req: Request)
    requires TerminatorAt(h, t) && e == RequestLineEnd(h, t)
    requires line == ScanRequestLine(h[..e]) && line.Some? && hs == Headers(h, e + 2, t, 0).headers
    requires req == Request(line.value.0, line.value.1, line.value.2, hs, Body(len, t), BodyLength(len, t))
    ensures ParseHead(h, t, len) == Parsed(req) && ClearedHead(h, t) == [e] + Headers(h, e + 2, t, 0).ends
  {
  }

  /** http_parse_request once the terminator is found at t, the head being `h`. */
  method ParseFound(buf: array<byte>, len: nat, ghost h: seq<byte>, t: nat, ghost o: Outcome, ghost z: seq<nat>)
      returns (rc: int, req: Request)
    requires t < len <= buf.Length && h == buf[..t + 1]
    requires FindTerminator(h, 0) == Some(t) && TerminatorAt(h, t) && HeadDefined(h, t)
    requires o == ParseHead(h, t, len) && z == ClearedHead(h, t)
    modifies buf
    ensures rc == Code(o)
    ensures rc == 0 ==> req == o.req
    ensures ClearedAt(buf[..], old(buf[..]), z)
  {
    ghost var whole := buf[..];
    req := Zeroed;
    var e, line := ReadRequestLine(buf, h, t);
    ClearedOne(whole, e);
    if line.None? {
      MalformedHead(h, t, len, e);
      return -1, req;
    }
    req := ParseRest(buf, len, h, whole, t, e, line);
    return 0, req;
  }


  /** The rest of http_parse_request once the request line, ending at e, has
      scanned: the header loop and the body. */
  method ParseRest(buf: array<byte>, len: nat, ghost h: seq<byte>, ghost whole: seq<byte>, t: nat, e: nat,
                   line: Option<(seq<byte>, seq<byte>, seq<byte>)>) returns (req: Request)
    requires t < len <= buf.Length && |whole| == buf.Length && h == whole[..t + 1]
    requires FindTerminator(h, 0) == Some(t) && TerminatorAt(h, t)
    requires e == RequestLineEnd(h, t) && line == ScanRequestLine(h[..e]) && line.Some?
    requires Headers(h, e + 2, t, 0).defined
    requires ClearedAt(buf[..], whole, [e])
    modifies buf
    ensures ParseHead(h, t, len) == Parsed(req)
    ensures ClearedAt(buf[..], whole, ClearedHead(h, t))
  {
    var hs := ReadHeaders(buf, t + 1, h, whole, e, t);
    var body, bodyLen := SetBody(len, t);
    req := Request(line.value.0, line.value.1, line.value.2, hs, body, bodyLen);
    ParsedHead(h, t, len, e, line, hs, req);
  }

  /** `header_bytes = (end - buf) + 4`; the body is set only when bytes follow the head. */
  method SetBody(len: nat, t: nat) returns (body: Option<nat>, bodyLen: nat)
    ensures body == Body(len, t) && bodyLen == BodyLength(len, t)
  {
    var hb := t + 4;
    body, bodyLen := None, 0;
    if hb < len {
      body, bodyLen := Some(hb), len - hb;
    }
  }

  // ---------------------------------------------------------------------------
  // http_get_header

  /** strcasecmp(a, b) == 0 on two C strings, in the C locale. */
  predicate SameName(a: seq<byte>, b: seq<byte>) {
    |a| == |b| && forall i :: 0 <= i < |a| ==> ToLower(a[i]) == ToLower(b[i])
  }

  /** http_get_header: the first header whose name matches `name` ignoring
      ASCII case, or -1. */
  method GetHeader(req: Request, name: seq<byte>) returns (i: int)
    requires NoNul(name)
    ensures -1 <= i < |req.headers|
    ensures i == -1 <==> forall k :: 0 <= k < |req.headers| ==> !SameName(req.headers[k].name, name)
    ensures i >= 0 ==> SameName(req.headers[i].name, name)
    ensures i >= 0 ==> forall k :: 0 <= k < i ==> !SameName(req.headers[k].name, name)
  {
    i := 0;
    while i < |req.headers|
      invariant 0 <= i <= |req.headers|
      invariant forall k :: 0 <= k < i ==> !SameName(req.headers[k].name, name)
    {
      if SameName(req.headers[i].name, name) {
        return i;
      }
      i := i + 1;
    }
    return -1;
  }
}
