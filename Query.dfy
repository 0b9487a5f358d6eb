/** Query-string helpers: percent-decoding (section 2.1 of RFC 3986, plus the
    form-encoding rule that '+' stands for a space), extraction of the first
    `key=value` pair of a query, and reading such a value as a `uint32_t`. */
module Query {
  import opened Bytes

  const Percent: byte := '%' as int
  const Plus: byte := '+' as int
  const Amp: byte := '&' as int
  const Hash: byte := '#' as int
  const Question: byte := '?' as int
  const Equals: byte := '=' as int

  /** The C string held in `a`: the bytes before the first NUL. */
  function CString(a: seq<byte>): (s: seq<byte>)
    ensures |s| <= |a| && s == a[..|s|] && NoNul(s)
    ensures |s| < |a| ==> a[|s|] == NUL
    ensures NUL !in a ==> s == a
  {
    if a == [] || a[0] == NUL then [] else [a[0]] + CString(a[1..])
  }

  /** A percent sign followed by two hexadecimal digits starts `s`. */
  predicate EscapeAt(s: seq<byte>, i: nat) {
    i + 2 < |s| && s[i] == Percent && IsHexDigit(s[i + 1]) && IsHexDigit(s[i + 2])
  }

  /** What url_decode produces from the C string `s`, read left to right. */
  function UrlDecoded(s: seq<byte>): (r: seq<byte>)
    ensures |r| + 2 * EscapeCount(s) == |s|
    decreases |s|
  {
    if s == [] then []
    else if EscapeAt(s, 0) then [16 * HexValue(s[1]) + HexValue(s[2])] + UrlDecoded(s[3..])
    else if s[0] == Plus then [SP] + UrlDecoded(s[1..])
    else [s[0]] + UrlDecoded(s[1..])
  }

  /** The number of escapes url_decode replaces in `s`. */
  function EscapeCount(s: seq<byte>): nat
    decreases |s|
  {
    if s == [] then 0
    else if EscapeAt(s, 0) then 1 + EscapeCount(s[3..])
    else EscapeCount(s[1..])
  }

  /** The byte url_decode writes for the input at index `i` of buffer `a`. */
  function ByteAt(a: seq<byte>, i: nat): byte
    requires i < |a|
  {
    if EscapeAt(a, i) then 16 * HexValue(a[i + 1]) + HexValue(a[i + 2])
    else if a[i] == Plus then SP
    else a[i]
  }

  /** How many input bytes that write consumes. */
  function StepAt(a: seq<byte>, i: nat): nat
    requires i < |a|
  {
    if EscapeAt(a, i) then 3 else 1
  }

  /** What url_decode writes when it reads the buffer `a` from index `i` up
      to the first NUL, step by step as the C loop does. */
  function DecodeFrom(a: seq<byte>, i: nat): seq<byte>
    decreases |a| - i
  {
    if i >= |a| || a[i] == NUL then [] else [ByteAt(a, i)] + DecodeFrom(a, i + StepAt(a, i))
  }

  /** The C string at a non-NUL byte is that byte followed by the C string after it. */
  lemma CStringCons(a: seq<byte>, i: nat)
    requires i < |a| && a[i] != NUL
    ensures CString(a[i..]) == [a[i]] + CString(a[i + 1..])
  {
    assert a[i..][1..] == a[i + 1..];
  }

  /** The C string at an escape starts with that escape. */
  lemma CStringEscape(a: seq<byte>, i: nat)
    requires EscapeAt(a, i)
    ensures var c := CString(a[i..]);
      EscapeAt(c, 0) && c[1] == a[i + 1] && c[2] == a[i + 2] && c[3..] == CString(a[i + 3..])
  {
    CStringCons(a, i);
    CStringCons(a, i + 1);
    CStringCons(a, i + 2);
    var c, c1, c2 := CString(a[i..]), CString(a[i + 1..]), CString(a[i + 2..]);
    assert c[1..] == c1 && c1[1..] == c2 && c2[1..] == CString(a[i + 3..]);
    assert c[3..] == c2[1..];
  }

  /** The C string at a non-NUL byte that starts no escape. */
  lemma CStringPlain(a: seq<byte>, i: nat)
    requires i < |a| && a[i] != NUL && !EscapeAt(a, i)
    ensures var c := CString(a[i..]);
      c != [] && c[0] == a[i] && !EscapeAt(c, 0) && c[1..] == CString(a[i + 1..])
  {
    CStringCons(a, i);
    var c := CString(a[i..]);
    assert |c| > 2 ==> c[1] == a[i + 1] && c[2] == a[i + 2];
  }

  /** Reading the buffer up to its NUL is decoding its C string. */
  lemma {:induction false} DecodeFromCString(a: seq<byte>, i: nat)
    requires i <= |a|
    ensures DecodeFrom(a, i) == UrlDecoded(CString(a[i..]))
    decreases |a| - i
  {
    if i < |a| && a[i] != NUL {
      if EscapeAt(a, i) {
        DecodeFromCString(a, i + 3);
        DecodeAtEscape(a, i);
      } else {
        DecodeFromCString(a, i + 1);
        DecodeOther(a, i);
      }
    } else {
      assert CString(a[i..]) == [];
    }
  }

  /** DecodeFromCString at an escape, given the rest. */
  lemma DecodeAtEscape(a: seq<byte>, i: nat)
    requires EscapeAt(a, i) && DecodeFrom(a, i + 3) == UrlDecoded(CString(a[i + 3..]))
    ensures DecodeFrom(a, i) == UrlDecoded(CString(a[i..]))
  {
    var c := CString(a[i..]);
    CStringEscape(a, i);
    UrlDecodedEscape(c);
    assert DecodeFrom(a, i) == [ByteAt(a, i)] + DecodeFrom(a, i + 3);
  }

  /** UrlDecoded on a string that starts with an escape. */
  lemma UrlDecodedEscape(c: seq<byte>)
    requires EscapeAt(c, 0)
    ensures UrlDecoded(c) == [16 * HexValue(c[1]) + HexValue(c[2])] + UrlDecoded(c[3..])
  {
  }

  /** DecodeFromCString at any other non-NUL byte, given the rest. */
  lemma DecodeOther(a: seq<byte>, i: nat)
    requires i < |a| && a[i] != NUL && !EscapeAt(a, i)
    requires DecodeFrom(a, i + 1) == UrlDecoded(CString(a[i + 1..]))
    ensures DecodeFrom(a, i) == UrlDecoded(CString(a[i..]))
  {
    var c := CString(a[i..]);
    CStringPlain(a, i);
    assert UrlDecoded(c) == [ByteAt(a, i)] + UrlDecoded(c[1..]);
  }

  /** The facts url_decode's loop starts from. */
  lemma DecodeSetup(a: seq<byte>)
    requires NUL in a
    ensures |CString(a)| < |a| && a[|CString(a)|] == NUL
    ensures DecodeFrom(a, 0) == UrlDecoded(CString(a))
  {
    DecodeFromCString(a, 0);
    assert a[0..] == a;
  }

  /** One turn of url_decode's loop: the byte to write for `src[i]` and how
      far to advance; `a` is the source as it was when decoding began. */
  method DecodeOne(src: array<byte>, i: nat, ghost a: seq<byte>, ghost n: nat) returns (c: byte, step: nat)
    requires |a| == src.Length && i < n < |a| && a[n] == NUL && a[i] != NUL
    requires forall j :: i <= j < src.Length ==> src[j] == a[j]
    ensures c == ByteAt(a, i) && step == StepAt(a, i) && i + step <= n
    ensures DecodeFrom(a, i) == [c] + DecodeFrom(a, i + step)
  {
    if src[i] == Percent && IsHexDigit(src[i + 1]) && IsHexDigit(src[i + 2]) {
      var hi := HexValue(src[i + 1]);
      var lo := HexValue(src[i + 2]);
      c, step := 16 * hi + lo, 3;
    } else if src[i] == Plus {
      c, step := SP, 1;
    } else {
      c, step := src[i], 1;
    }
  }

  /** Peeling the first element off a suffix. */
  lemma DropHead(d: seq<byte>, k: nat, c: byte, t: seq<byte>)
    requires k <= |d| && d[k..] == [c] + t
    ensures k < |d| && d[k] == c && d[k + 1..] == t
  {
    assert d[k..][0] == c && d[k..][1..] == t;
  }

  /** url_decode(dst, src).  `dst` may be `src` itself: the result is stated in
      terms of the source as it was on entry, so decoding in place and decoding
      into another buffer give the same bytes. */
  method UrlDecode(dst: array<byte>, src: array<byte>) returns (di: nat)
    requires NUL in src[..]
    requires dst.Length > |UrlDecoded(CString(src[..]))|
    modifies dst
    ensures di == |UrlDecoded(old(CString(src[..])))| && di <= |old(CString(src[..]))|
    ensures dst[..di] == UrlDecoded(old(CString(src[..])))
    ensures dst[di] == NUL
    ensures dst[di + 1..] == old(dst[di + 1..])
  {
    ghost var a, orig := src[..], dst[..];
    ghost var n := |CString(a)|;
    ghost var d := DecodeFrom(a, 0);
    DecodeSetup(a);
    di := 0;
    var i := 0;
    while src[i] != NUL
      invariant Decoding(dst, src, a, n, d, orig, di, i)
      decreases n - i
    {
      di, i := DecodeTurn(dst, src, a, n, d, orig, di, i);
    }
    assert d[di..] == [];
    dst[di] := NUL;
  }

  /** The state of url_decode's loop after reading `src` up to i and writing
      `dst` up to di: `d` is the whole output, `a` the source and `orig` the
      destination as they were on entry, and n the index of the source's NUL. */
  ghost predicate Decoding(dst: array<byte>, src: array<byte>, a: seq<byte>, n: nat, d: seq<byte>,
                           orig: seq<byte>, di: nat, i: nat)
    reads dst, src
  {
    && |a| == src.Length && n < |a| && a[n] == NUL && |orig| == dst.Length
    && di <= i <= n && di <= |d| < dst.Length
    && DecodeFrom(a, i) == d[di..]
    && (forall j :: i <= j < src.Length ==> src[j] == a[j])
    && (forall j :: 0 <= j < di ==> dst[j] == d[j])
    && (forall j :: di <= j < dst.Length ==> dst[j] == orig[j])
  }

  /** One turn of url_decode's loop: write one byte and step past what it decodes. */
  method DecodeTurn(dst: array<byte>, src: array<byte>, ghost a: seq<byte>, ghost n: nat, ghost d: seq<byte>,
                    ghost orig: seq<byte>, di: nat, i: nat) returns (di': nat, i': nat)
    requires Decoding(dst, src, a, n, d, orig, di, i) && src[i] != NUL
    modifies dst
    ensures Decoding(dst, src, a, n, d, orig, di', i') && i < i' && di' == di + 1
  {
    var c, step := DecodeOne(src, i, a, n);
    DropHead(d, di, c, DecodeFrom(a, i + step));
    dst[di] := c;
    di', i' := di + 1, i + step;
  }


  /** Percent-encoding of every byte, with uppercase digits: a reference
      encoder that url_decode must invert. */
  function PercentEncoded(s: seq<byte>): seq<byte> {
    if s == [] then []
    else [Percent, HexUpper(s[0] / 16), HexUpper(s[0] % 16)] + PercentEncoded(s[1..])
  }

  /** The uppercase hexadecimal digit for `v`. */
  function HexUpper(v: nat): (c: byte)
    requires v < 16
    ensures IsHexDigit(c) && HexValue(c) == v
  {
    if v < 10 then '0' as int + v else 'A' as int + (v - 10)
  }

  /** Decoding undoes percent-encoding. */
  lemma {:induction false} DecodePercentEncoded(s: seq<byte>)
    ensures UrlDecoded(PercentEncoded(s)) == s
  {
    if s != [] {
      var e := PercentEncoded(s);
      assert EscapeAt(e, 0);
      assert e[3..] == PercentEncoded(s[1..]);
      DecodePercentEncoded(s[1..]);
    }
  }

  /** Without '%' and '+', decoding changes nothing. */
  lemma {:induction false} DecodePlain(s: seq<byte>)
    requires Percent !in s && Plus !in s
    ensures UrlDecoded(s) == s
  {
    if s != [] {
      assert s[0] in s;
      assert forall c :: c in s[1..] ==> c in s;
      DecodePlain(s[1..]);
    }
  }

  /** Where query_get_param starts: after the first '?', or at 0 without one. */
  function QueryStart(s: seq<byte>): (q: nat)
    ensures q <= |s|
    ensures Question !in s[..if q == 0 then 0 else q - 1]
    ensures q > 0 ==> s[q - 1] == Question
    ensures q == 0 ==> Question !in s
  {
    if s == [] then 0
    else if s[0] == Question then 1
    else
      var q := QueryStart(s[1..]);
      if q == 0 then 0 else q + 1
  }

  /** The first index at or after `i` holding one of `stops`, or |s|. */
  function NextStop(s: seq<byte>, i: nat, stops: set<byte>): (e: nat)
    requires i <= |s|
    ensures i <= e <= |s|
    ensures forall j :: i <= j < e ==> s[j] !in stops
    ensures e < |s| ==> s[e] in stops
    decreases |s| - i
  {
    if i == |s| || s[i] in stops then i else NextStop(s, i + 1, stops)
  }

  /** `strncmp(q, key, klen) == 0 && q[klen] == '='` at position `q` of `s`. */
  predicate MatchesAt(s: seq<byte>, q: nat, key: seq<byte>) {
    q + |key| < |s| && s[q..q + |key|] == key && s[q + |key|] == Equals
  }

  /** The raw value of the pair whose value starts at `v`: up to '&', '#' or the end. */
  function RawValue(s: seq<byte>, v: nat): seq<byte>
    requires v <= |s|
  {
    s[v..NextStop(s, v, {Amp, Hash})]
  }

  /** The positions query_get_param examines: the start `q0`, and every
      position after an '&' at or past it, before the end of the string. */
  predicate PairStart(s: seq<byte>, q0: nat, j: nat) {
    j < |s| && (j == q0 || (q0 < j && s[j - 1] == Amp))
  }

  /** The raw value query_get_param finds from pair start `q`: that of the
      first pair, scanning from `q`, that begins with `key=`. */
  function FindParam(s: seq<byte>, key: seq<byte>, q: nat): Option<seq<byte>>
    requires q <= |s|
    decreases |s| - q
  {
    if q == |s| then None
    else if MatchesAt(s, q, key) then Some(RawValue(s, q + |key| + 1))
    else
      var e := NextStop(s, q, {Amp});
      if e < |s| then FindParam(s, key, e + 1) else None
  }

  /** The positions examined after skipping the pair at `q` are those examined
      from `q` other than `q` itself. */
  lemma PairStartSkip(s: seq<byte>, q: nat, e: nat)
    requires q <= e < |s| && s[e] == Amp
    requires forall j :: q <= j < e ==> s[j] != Amp
    ensures forall j: nat :: PairStart(s, q, j) && j != q <==> PairStart(s, e + 1, j)
  {
    forall j: nat | PairStart(s, q, j) && j != q
      ensures PairStart(s, e + 1, j)
    {
      assert s[j - 1] == Amp;
    }
  }

  /** Past a position that does not start with `key=`, FindParam goes on after the next '&'. */
  lemma FindParamSkip(s: seq<byte>, key: seq<byte>, q: nat)
    requires q < |s| && !MatchesAt(s, q, key)
    ensures var e := NextStop(s, q, {Amp});
      FindParam(s, key, q) == FindParam(s, key, if e < |s| then e + 1 else |s|)
  {
  }

  /** FindParam finds nothing exactly when no examined position starts with `key=`. */
  lemma {:induction false} FindParamNone(s: seq<byte>, key: seq<byte>, q: nat)
    requires q <= |s|
    ensures FindParam(s, key, q).None? <==> forall j: nat :: PairStart(s, q, j) ==> !MatchesAt(s, j, key)
    decreases |s| - q
  {
    if q < |s| {
      assert PairStart(s, q, q);
      if !MatchesAt(s, q, key) {
        var e := NextStop(s, q, {Amp});
        if e < |s| {
          FindParamNone(s, key, e + 1);
          PairStartSkip(s, q, e);
        } else {
          assert forall j: nat :: PairStart(s, q, j) ==> j == q;
        }
      }
    }
  }

  /** What FindParam finds is the value of the first examined position that
      starts with `key=`. */
  lemma {:induction false} FindParamFirst(s: seq<byte>, key: seq<byte>, q: nat)
    requires q <= |s| && FindParam(s, key, q).Some?
    ensures exists j: nat ::
      && PairStart(s, q, j) && MatchesAt(s, j, key)
      && FindParam(s, key, q).value == RawValue(s, j + |key| + 1)
      && (forall j': nat :: PairStart(s, q, j') && j' < j ==> !MatchesAt(s, j', key))
    decreases |s| - q
  {
    if MatchesAt(s, q, key) {
      assert PairStart(s, q, q);
    } else {
      var e := NextStop(s, q, {Amp});
      FindParamFirst(s, key, e + 1);
      PairStartSkip(s, q, e);
    }
  }

  /** The pair value query_get_param stores for a buffer of `outsz` bytes:
      the raw value cut to `outsz - 1` bytes, then decoded. */
  function StoredParam(raw: seq<byte>, outsz: nat): seq<byte>
    requires outsz >= 1
  {
    UrlDecoded(Cut(raw, outsz))
  }

  /** The bytes query_get_param copies into a buffer of `outsz` bytes: the
      longest prefix of the raw value that leaves room for the NUL. */
  function Cut(raw: seq<byte>, outsz: nat): (c: seq<byte>)
    requires outsz >= 1
    ensures |c| < outsz && |c| <= |raw| && c == raw[..|c|]
    ensures |c| < |raw| ==> |c| == outsz - 1
  {
    if |raw| >= outsz then raw[..outsz - 1] else raw
  }

  /** A position that satisfies NextStop's contract is the one it returns. */
  lemma {:induction false} NextStopIs(s: seq<byte>, i: nat, e: nat, stops: set<byte>)
    requires i <= e <= |s|
    requires forall j :: i <= j < e ==> s[j] !in stops
    requires e < |s| ==> s[e] in stops
    ensures NextStop(s, i, stops) == e
    decreases e - i
  {
    if i < e {
      NextStopIs(s, i + 1, e, stops);
    }
  }

  /** Buffer `a` holds the C string `v`, which fits in its first `outsz` bytes. */
  predicate StoredIn(a: seq<byte>, v: seq<byte>, outsz: nat) {
    |v| < outsz <= |a| && a[..|v|] == v && a[|v|] == NUL
  }

  /** The matched branch of query_get_param: the value starting at `v` runs to
      the next '&' or '#'; at most `outsz - 1` bytes of it are copied to `out`,
      terminated, and decoded in place. */
  method StoreValue(src: seq<byte>, v: nat, out: array<byte>, outsz: nat)
    requires NoNul(src) && v <= |src|
    requires 1 <= outsz <= out.Length
    modifies out
    ensures StoredIn(out[..], StoredParam(RawValue(src, v), outsz), outsz)
    ensures var k := |Cut(RawValue(src, v), outsz)| + 1; out[k..] == old(out[k..])
  {
    var end := ValueEnd(src, v);
    var len := end - v;
    if len >= outsz {
      len := outsz - 1;
    }
    CutValue(src, v, end, len, outsz);
    CopyValue(src, v, len, out);
    ghost var copied := out[..];
    var n := UrlDecode(out, out);
    SuffixUnchanged(out[..], copied, n + 1, len + 1);
  }

  /** Two buffers that agree from index i on agree from any later index k. */
  lemma SuffixUnchanged(a: seq<byte>, b: seq<byte>, i: nat, k: nat)
    requires i <= k <= |a| == |b| && a[i..] == b[i..]
    ensures a[k..] == b[k..]
  {
    forall j | k <= j < |a|
      ensures a[j] == b[j]
    {
      assert a[j] == a[i..][j - i];
    }
  }

  /** The scan for the end of a value: the next '&' or '#', or the end. */
  method ValueEnd(src: seq<byte>, v: nat) returns (end: nat)
    requires v <= |src|
    ensures end == NextStop(src, v, {Amp, Hash})
  {
    end := v;
    while end < |src| && src[end] != Amp && src[end] != Hash
      invariant v <= end <= |src|
      invariant forall j :: v <= j < end ==> src[j] != Amp && src[j] != Hash
    {
      end := end + 1;
    }
    NextStopIs(src, v, end, {Amp, Hash});
  }

  /** The `len` bytes copied from v are the raw value cut to `outsz - 1` bytes. */
  lemma CutValue(src: seq<byte>, v: nat, end: nat, len: nat, outsz: nat)
    requires v <= end <= |src| && end == NextStop(src, v, {Amp, Hash}) && outsz >= 1
    requires len == if end - v >= outsz then outsz - 1 else end - v
    ensures var raw := RawValue(src, v);
      src[v..v + len] == Cut(raw, outsz)
  {
    var raw := src[v..end];
    assert RawValue(src, v) == raw;
    if |raw| >= outsz {
      assert len == outsz - 1;
      forall k | 0 <= k < len
        ensures raw[..len][k] == src[v..v + len][k]
      {
        assert raw[k] == src[v + k];
      }
      assert raw[..len] == src[v..v + len];
    } else {
      assert len == |raw|;
    }
  }

  /** `memcpy(out, val, len); out[len] = 0;`: `out` then holds the copied bytes as a C string. */
  method CopyValue(src: seq<byte>, v: nat, len: nat, out: array<byte>)
    requires NoNul(src) && v + len <= |src| && len < out.Length
    modifies out
    ensures CString(out[..]) == src[v..v + len]
    ensures out[len + 1..] == old(out[len + 1..])
  {
    forall j | 0 <= j < len {
      out[j] := src[v + j];
    }
    out[len] := NUL;
    assert out[..][..len] == src[v..v + len];
    CStringOfTerminated(out[..], len);
  }

  /** The skip branch of query_get_param: past the next '&', or to the end. */
  method SkipPair(src: seq<byte>, q: nat) returns (r: nat)
    requires q <= |src|
    ensures var e := NextStop(src, q, {Amp}); r == if e < |src| then e + 1 else |src|
  {
    r := q;
    while r < |src| && src[r] != Amp
      invariant q <= r <= |src|
      invariant forall j :: q <= j < r ==> src[j] != Amp
    {
      r := r + 1;
    }
    NextStopIs(src, q, r, {Amp});
    if r < |src| && src[r] == Amp {
      r := r + 1;
    }
  }

  /** query_get_param(src, key, out, outsz): 1 and the decoded value in `out`
      when a pair `key=` exists, 0 and `out` untouched otherwise. */
  method QueryGetParam(src: seq<byte>, key: seq<byte>, out: array<byte>, outsz: nat) returns (found: int)
    requires NoNul(src) && NoNul(key)
    requires outsz <= out.Length && (outsz >= 1 || FindParam(src, key, QueryStart(src)).None?)
    modifies out
    ensures found == 0 || found == 1
    ensures found == 1 <==> FindParam(src, key, QueryStart(src)).Some?
    ensures found == 0 ==> out[..] == old(out[..])
    ensures found == 1 ==>
      StoredIn(out[..], StoredParam(FindParam(src, key, QueryStart(src)).value, outsz), outsz)
    ensures found == 1 ==>
      var k := |Cut(FindParam(src, key, QueryStart(src)).value, outsz)| + 1; out[k..] == old(out[k..])
  {
    var q := QueryStart(src);
    ghost var f := FindParam(src, key, q);
    while q < |src|
      invariant q <= |src| && FindParam(src, key, q) == f
      invariant out[..] == old(out[..])
      decreases |src| - q
    {
      if MatchesAt(src, q, key) {
        StoreMatch(src, key, q, out, outsz, f);
        return 1;
      }
      FindParamSkip(src, key, q);
      q := SkipPair(src, q);
    }
    return 0;
  }

  /** The matched branch of query_get_param at pair start q, where the search
      result is `f`. */
  method StoreMatch(src: seq<byte>, key: seq<byte>, q: nat, out: array<byte>, outsz: nat,
                    ghost f: Option<seq<byte>>)
    requires NoNul(src) && MatchesAt(src, q, key) && f == FindParam(src, key, q)
    requires 1 <= outsz <= out.Length
    modifies out
    ensures f.Some? && StoredIn(out[..], StoredParam(f.value, outsz), outsz)
    ensures var k := |Cut(f.value, outsz)| + 1; out[k..] == old(out[k..])
  {
    StoreValue(src, q + |key| + 1, out, outsz);
  }

  /** A buffer with a NUL at `n` and none before holds the C string of its first `n` bytes. */
  lemma {:induction false} CStringOfTerminated(a: seq<byte>, n: nat)
    requires n < |a| && a[n] == NUL && NoNul(a[..n])
    ensures CString(a) == a[..n]
  {
    if n > 0 {
      assert a[0] == a[..n][0];
      assert a[1..][..n - 1] == a[..n][1..];
      CStringOfTerminated(a[1..], n - 1);
    }
  }

  /** The value query_get_u32 returns: `defv` when the pair is absent or its
      (cut, decoded) value has a non-digit before its first NUL; otherwise the
      decimal value of those digits modulo 2^32, so 0 for an empty value. */
  function U32Param(src: seq<byte>, key: seq<byte>, defv: uint32): uint32 {
    match FindParam(src, key, QueryStart(src))
    case None => defv
    case Some(raw) =>
      var d := CString(StoredParam(raw, 32));
      if forall i :: 0 <= i < |d| ==> IsDigit(d[i]) then DigitsValue(d) % TwoTo32 else defv
  }

  /** One step of `v = v*10 + digit` in `uint32_t` keeps `v` equal to the
      digits' value modulo 2^32. */
  lemma AccumulateStep(d: seq<byte>, i: nat, v: int)
    requires i < |d| && forall j :: 0 <= j <= i ==> IsDigit(d[j])
    requires v == DigitsValue(d[..i]) % TwoTo32
    ensures (v * 10 + (d[i] - '0' as int)) % TwoTo32 == DigitsValue(d[..i + 1]) % TwoTo32
  {
    assert d[..i + 1][..i] == d[..i];
    assert DigitsValue(d[..i + 1]) == DigitsValue(d[..i]) * 10 + (d[i] - '0' as int);
    MulAddMod(DigitsValue(d[..i]), d[i] - '0' as int, v);
  }

  /** Multiplying by ten and adding commutes with reduction modulo 2^32. */
  lemma MulAddMod(x: nat, c: nat, v: int)
    requires v == x % TwoTo32
    ensures (v * 10 + c) % TwoTo32 == (x * 10 + c) % TwoTo32
  {
    var k := x / 0x1_0000_0000;
    assert x == 0x1_0000_0000 * k + v;
    ModShift(v * 10 + c, 10 * k);
  }

  /** Adding a multiple of 2^32 does not change the remainder modulo 2^32. */
  lemma ModShift(a: int, k: int)
    ensures (a + 0x1_0000_0000 * k) % TwoTo32 == a % TwoTo32
  {
    var q, r := a / 0x1_0000_0000, a % 0x1_0000_0000;
    assert a + 0x1_0000_0000 * k == 0x1_0000_0000 * (q + k) + r;
  }

  /** The digit loop of query_get_u32 over the C string in `tmp`: the digits'
      value modulo 2^32, or `defv` at the first non-digit. */
  method ReadU32(tmp: array<byte>, defv: uint32) returns (v: uint32)
    requires NUL in tmp[..]
    ensures var d := CString(tmp[..]);
      v == if forall i :: 0 <= i < |d| ==> IsDigit(d[i]) then DigitsValue(d) % TwoTo32 else defv
  {
    ghost var d := CString(tmp[..]);
    var i := 0;
    v := 0;
    while tmp[i] != NUL
      invariant 0 <= i <= |d|
      invariant forall j :: 0 <= j < i ==> IsDigit(d[j])
      invariant v == DigitsValue(d[..i]) % TwoTo32
      decreases |d| - i
    {
      assert i < |d| && tmp[i] == d[i];
      if !IsDigit(tmp[i]) {
        return defv;
      }
      AccumulateStep(d, i, v);
      v := (v * 10 + (tmp[i] - '0' as int)) % TwoTo32;
      i := i + 1;
    }
    assert i == |d| && d[..i] == d;
  }

  /** query_get_u32(src, key, defv). */
  method QueryGetU32(src: seq<byte>, key: seq<byte>, defv: uint32) returns (v: uint32)
    requires NoNul(src) && NoNul(key)
    ensures v == U32Param(src, key, defv)
  {
    var tmp := new byte[32];
    var found := QueryGetParam(src, key, tmp, 32);
    if found == 0 {
      return defv;
    }
    ghost var stored := StoredParam(FindParam(src, key, QueryStart(src)).value, 32);
    assert CString(tmp[..]) == CString(stored) by {
      assert tmp[..][..|stored|] == stored;
      CStringPrefix(tmp[..], |stored|);
    }
    v := ReadU32(tmp, defv);
  }

  /** The C string of a buffer that starts with `s` and has a NUL right after it
      is the C string of `s`. */
  lemma {:induction false} CStringPrefix(a: seq<byte>, n: nat)
    requires n < |a| && a[n] == NUL
    ensures CString(a) == CString(a[..n])
  {
    if n > 0 && a[0] != NUL {
      assert a[1..][..n - 1] == a[..n][1..];
      CStringPrefix(a[1..], n - 1);
    }
  }

  lemma SmallMod(n: uint32)
    ensures n % TwoTo32 == n
  {
  }

  /** A query made of the single pair `key=val` yields `val`. */
  lemma SinglePair(key: seq<byte>, val: seq<byte>)
    requires Question !in key && Question !in val && Amp !in val && Hash !in val
    ensures FindParam(key + [Equals] + val, key, QueryStart(key + [Equals] + val)) == Some(val)
  {
    var src := key + [Equals] + val;
    var v := |key| + 1;
    assert src[..|key|] == key && src[|key|] == Equals && src[v..] == val;
    assert Question !in src by {
      forall j | 0 <= j < |src|
        ensures src[j] != Question
      {
        if j < |key| {
          assert src[j] == key[j];
        } else if j > |key| {
          assert src[j] == val[j - v];
        }
      }
    }
    assert QueryStart(src) == 0;
    assert MatchesAt(src, 0, key);
    assert forall j :: v <= j < |src| ==> src[j] == val[j - v];
    NextStopIs(src, v, |src|, {Amp, Hash});
    assert RawValue(src, v) == val;
  }

  /** A `key=<decimal n>` query reads back as n. */
  lemma U32OfDecimal(key: seq<byte>, n: uint32, defv: uint32)
    requires Question !in key
    ensures U32Param(key + [Equals] + Decimal(n), key, defv) == n
  {
    var digits := Decimal(n);
    DecimalLength(n);
    SinglePair(key, digits);
    DecodePlain(digits);
    assert StoredParam(digits, 32) == digits;
    assert CString(digits) == digits;
    DecimalValue(n);
    SmallMod(n);
  }

  /** A uint32 has at most ten decimal digits: no `%` or `+`, and no cut in a 32-byte buffer. */
  lemma DecimalLength(n: uint32)
    ensures |Decimal(n)| <= 10
    ensures Percent !in Decimal(n) && Plus !in Decimal(n)
    ensures Question !in Decimal(n) && Amp !in Decimal(n) && Hash !in Decimal(n)
    ensures NoNul(Decimal(n))
  {
    assert Pow10(10) == 10000000000;
    DecimalLengthBound(n, 10);
  }

  lemma {:induction false} DecimalLengthBound(n: nat, k: nat)
    requires n < Pow10(k)
    ensures |Decimal(n)| <= if k == 0 then 1 else k
  {
    if n >= 10 {
      assert k >= 2 && n / 10 < Pow10(k - 1);
      DecimalLengthBound(n / 10, k - 1);
    }
  }

  function Pow10(k: nat): nat {
    if k == 0 then 1 else 10 * Pow10(k - 1)
  }
}
