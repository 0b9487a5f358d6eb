# IoT sensor emulator: the common C helpers, modelled in Dafny

The emulator's servers share four header-only C helpers under `common/`:

- a fixed 256-slot ring of timestamped samples per sensor (`ringbuf.h`);
- a small HTTP/1.x request-head parser with a case-insensitive header lookup (`http.h`);
- an append-only JSON writer with string escaping and automatic commas (`json.h`);
- percent-decoding and query-string parameter extraction (`timeutil.h`).

This project states what each routine computes as pure Dafny functions over
byte sequences. The routines themselves are written as Dafny methods over
arrays and classes, in the shape the C code has, and each is proved against
those functions. Lemmas then prove properties of the functions:

- the ring's view after any sequence of pushes;
- escaping followed by decoding gives the input back;
- decoding undoes percent-encoding;
- a uint32 query value reads back as written;
- the bounds and quirks of the request parser.

Files:

- `Bytes.dfy`: bytes, `uint32`, `Option`, the C-locale character classes and decimal digits.
- `RingBuf.dfy`: `Ring`, `Pushed`, `View` and the class `SensorSlot`.
- `Http.dfy`: `Parse`, `Cleared`, the method `ParseRequest` over the caller's buffer, and `GetHeader`.
- `Json.dfy`: `Doc`, `Escape`, an RFC 8259 string decoder, and the class `Writer`.
- `Query.dfy`: `UrlDecoded`, `FindParam`, `U32Param` and the methods `UrlDecode`, `QueryGetParam` and `QueryGetU32`.

The model keeps the C code's own arithmetic, including three behaviours of `http_parse_request`:

- a stored header value loses its last byte (`Host: x` stores an empty value);
- the body pointer is set three bytes past the end of the header section;
- a request-line token longer than its `%Ns` limit runs on into the next field.

It keeps two behaviours of the JSON writer:

- `jsonw_bool` neither writes a comma nor sets the comma flag;
- two containers opened in turn inside an array are not separated by a comma.

These are stated as properties of the model in the table below. They are not corrected.

Some C routines are split into several Dafny methods so that each proof stays small. The pieces have no row of their own:

- `Http.ParseRequest` is made of `FindEnd`, `ParseFound`, `ReadRequestLine`, `ParseRest`, `ReadHeaders`, `HeaderTurn`, `ReadLine`, `StoreHeader` and `SetBody`.
- `Query.QueryGetParam` is made of `StoreMatch`, `StoreValue`, `ValueEnd`, `CopyValue` and `SkipPair`.
- `Query.UrlDecode` is made of `DecodeOne` and `DecodeTurn`.
- `Json.Writer.StringEscaped` is made of `EscapedByte` and `EscapedNext`.

## Model

| member | source | states |
|---|---|---|
| RingBuf.SensorSlot.constructor | common/ringbuf.h:19-25 | a new slot (zero-initialised, as in the registry) holds no samples and is aligned |
| RingBuf.SensorSlot.Clear | common/ringbuf.h:27 | the slot becomes `Cleared(old state)`: head and count reset, slots untouched, the view empty |
| RingBuf.SensorSlot.Push | common/ringbuf.h:29-33 | the sample is written at the old head, every other slot is unchanged, the state is `Pushed(old state)`, and the view gains the sample at its end (dropping its oldest element when full) |
| RingBuf.SensorSlot.Foreach | common/ringbuf.h:35-44 | the callback is called `count` times, on pairwise distinct slots, and the samples it sees are the view, oldest first |
| RingBuf.SensorSlot.CopyChrono | common/ringbuf.h:46-55 | returns min(n, count), copies exactly the oldest that many samples of the view into `dst`, and leaves the rest of `dst` alone |
| RingBuf.SlotsDistinct | common/ringbuf.h:39-42 | different positions of the chronological view live in different slots |
| RingBuf.PushView | common/ringbuf.h:29-33 | one push appends the sample to the view and evicts the oldest one exactly when the ring was full |
| RingBuf.PushAllView | common/ringbuf.h:29-33 | after any sequence of pushes the view is the newest 256 of the old view followed by the pushed samples |
| RingBuf.ClearThenPushAll | common/ringbuf.h:27-33 | after a clear, k pushes leave the last min(k, 256) samples in push order |
| RingBuf.ThreeHundredPushes | common/ringbuf.h:27-44 | 300 pushes into a cleared ring leave it full, with the 45th sample pushed as its oldest |
| Json.Writer.constructor | common/json.h:27-31 | a fresh writer has capacity 256, an empty NUL-terminated output, depth 0 and cleared flags |
| Json.Writer.Reserve | common/json.h:35-42 | afterwards `len + add + 1 <= cap`; the capacity is kept when it suffices, else it is `Grown`, and the output is preserved |
| Json.GrownSmallest | common/json.h:36-38 | the grown capacity holds the request and is the first `cap * 2^k` that does |
| Json.Writer.Append | common/json.h:44-49 | the output becomes the old output followed by the bytes, and stays NUL-terminated |
| Json.Writer.Putc | common/json.h:51 | the output gains exactly the one byte |
| Json.Writer.CommaIfNeeded | common/json.h:53-58 | a comma is appended exactly when a container is open and its flag is set; nothing else changes |
| Json.Writer.MarkNeedComma | common/json.h:60-62 | the innermost open container's flag is set; the output and the other flags are unchanged |
| Json.Marked | common/json.h:60-62 | the innermost flag becomes true, the outer flags and the output are unchanged |
| Json.Escape | common/json.h:66-84 | each byte becomes 1 to 6 bytes, none below 0x20; a byte is kept as itself exactly when it is not a control byte, quote or backslash; otherwise its form starts with a backslash |
| Json.Writer.EscapedByte | common/json.h:67-84 | one byte appends its `Escape` |
| Json.Writer.StringEscaped | common/json.h:64-87 | the output gains the quoted, escaped form of the string; the flags are unchanged |
| Json.EscapeAllNoControl | common/json.h:76-80 | the escaped body has no raw control byte, as section 7 of RFC 8259 requires |
| Json.EscapeAllPlain | common/json.h:81-82 | bytes that need no escaping pass through unchanged |
| Json.UnescapeEscapeAll | common/json.h:64-87 | an RFC 8259 string decoder applied to the escaped body gives the original bytes back |
| Json.QuotedRoundTrip | common/json.h:64-87 | the whole token `jsonw_string_escaped` writes decodes, as a JSON string, to its input |
| Json.Writer.Raw | common/json.h:89-91 | the bytes are appended verbatim, with no comma and no flag change |
| Json.Writer.ObjBegin | common/json.h:93-98 | a comma if due, then `{`, and a new cleared flag is pushed |
| Json.Writer.ArrBegin | common/json.h:106-111 | a comma if due, then `[`, and a new cleared flag is pushed |
| Json.Writer.ObjEnd | common/json.h:100-104 | returns -1 and changes nothing at depth 0; otherwise pops the innermost flag and appends `}` |
| Json.Writer.ArrEnd | common/json.h:113-117 | returns -1 and changes nothing at depth 0; otherwise pops the innermost flag and appends `]` |
| Json.Writer.Key | common/json.h:119-125 | a comma if due, the quoted key and a colon; the flag is left for the value to set |
| Json.Writer.PairString | common/json.h:127-132 | key, quoted value, then the innermost flag is set |
| Json.Writer.PairNumber | common/json.h:134-142 | key, the formatted number, then the innermost flag is set |
| Json.Writer.PairUint | common/json.h:144-152 | key, the decimal digits of the value, then the innermost flag is set |
| Json.Writer.Bool | common/json.h:154-156 | `true` or `false` is appended raw, with no comma and no flag change |
| Json.TwoPairs | common/json.h:5-12 | object begin, a string pair, a uint pair and object end on a fresh writer give `{"k1":"v1","k2":n}` with no container left open |
| Json.TwoPairDocument | common/json.h:5-12 | the same calls on a `Writer` produce that text; the bytes at the positions of the first key and of its value each decode, as a JSON string token, to that key and that value |
| Json.SiblingContainersUnseparated | common/json.h:93-117 | `[{}{}]` is what opening and closing two objects in an array writes: containers do not set the comma flag |
| Json.BoolSetsNoFlag | common/json.h:154-156 | a pair written after a boolean value gets no separating comma |
| Query.UrlDecode | common/timeutil.h:22-38 | writes the decoding of the C string held in `src`, even when `dst` is `src`; returns its length, which is at most the input's; writes a NUL after it and touches nothing beyond |
| Query.DecodeFromCString | common/timeutil.h:25-37 | reading the buffer left to right until its NUL is decoding its C string |
| Query.DecodePercentEncoded | common/timeutil.h:26-30 | decoding inverts percent-encoding, for every byte string |
| Query.DecodePlain | common/timeutil.h:31-35 | a string without `%` or `+` decodes to itself |
| Query.QueryStart | common/timeutil.h:43-44 | the search starts right after the first `?`, or at 0 when there is none |
| Query.NextStop | common/timeutil.h:51 | the first index from `i` on that holds a stop byte, or the end |
| Query.QueryGetParam | common/timeutil.h:40-64 | returns 1 exactly when some examined pair starts with `key=`; then `out` holds the decoded value of the first such pair, cut to `outsz - 1` bytes before decoding, and every byte of `out` past the copied bytes and their NUL is untouched; on 0 `out` is untouched, also when `outsz` is 0 |
| Query.SkipPair | common/timeutil.h:59-61 | the next examined position is just past the next `&`, or the end |
| Query.FindParamNone | common/timeutil.h:46-63 | no value is found exactly when no examined pair start (the query start, or the byte after an `&`) begins with `key=` |
| Query.FindParamFirst | common/timeutil.h:46-63 | a value found is the raw value of the first examined pair that begins with `key=` |
| Query.SinglePair | common/timeutil.h:42-64 | the query `key=val` yields `val` |
| Query.ReadU32 | common/timeutil.h:70 | all-digit text gives its decimal value modulo 2^32; any other byte gives the default |
| Query.AccumulateStep | common/timeutil.h:70 | `v = v*10 + digit` in `uint32_t` stays equal to the digits' value modulo 2^32 |
| Query.QueryGetU32 | common/timeutil.h:66-72 | returns `U32Param`: the default when the key is absent or its decoded value (cut to 31 bytes) has a non-digit before its first NUL, else its value modulo 2^32 |
| Query.U32OfDecimal | common/timeutil.h:66-72 | a `key=<decimal n>` query reads back as n, for every uint32 n |
| Http.FindEnd | common/http.h:61-69 | returns the first index at which `\r\n\r\n` ends, or None |
| Http.FindTerminatorFirst | common/http.h:63-68 | the terminator found is the first one, and none is found only when there is none |
| Http.NeedMoreIff | common/http.h:58-69 | the outcome is -2 exactly when no `\r\n\r\n` has arrived |
| Http.ParseRequest | common/http.h:59-114 | the return code and `*out` are those `Parse` gives the buffer's first `len` bytes; on -2 `*out` is zeroed; the buffer changes only at the indices `Cleared` names, which become NUL |
| Http.ClearedAreCrs | common/http.h:73-87 | every byte the parser overwrites was a CR inside the head |
| Http.ParsedBounds | common/http.h:76-81 | method, path and version are non-empty and fit their arrays (7, 255 and 15 bytes), and at most 24 headers are stored |
| Http.ScanBounds | common/http.h:76 | each `%Ns` token is non-empty and at most N bytes |
| Http.ScanRequestLineTokens | common/http.h:76 | a line of three space-separated tokens within their limits scans back into those tokens |
| Http.OverlongMethodSpills | common/http.h:76 | an eight-byte method puts its last byte in `path` and the real path in `version`, and the line still parses |
| Http.StoreHeader | common/http.h:89-99 | the header stored for a line is `HeaderOf`: name cut to 31 bytes, value trimmed of spaces and tabs at both ends and then by the copy arithmetic |
| Http.PaddedHeader | common/http.h:88-98 | for `name:` then blanks, a value m with no blank at either end, then blanks, the stored header is the name cut to 31 bytes and m without its last byte, cut to 255 bytes |
| Http.ValueDropsLast | common/http.h:91-98 | the value part of PaddedHeader, for the text after any colon |
| Http.HostExample | common/http.h:88-98 | the line `Host: x` stores the name `Host` and an empty value |
| Http.HeadersBounded | common/http.h:81-99 | the header loop stores at most 24 headers in total |
| Http.HeadersEnds | common/http.h:82-87 | the header loop overwrites only CRs that end lines inside the head |
| Http.LineNotEmpty | common/http.h:84-86 | a header line read before the terminator is never empty, so the loop's empty-line branch is never taken |
| Http.BodyStartsLate | common/http.h:105-112 | a head followed by `rest` parses as the head alone, except that the body is `rest[3..]`, or none when `rest` has at most three bytes |
| Http.ParseExtended | common/http.h:59-112 | bytes after a complete head change only the body fields of the result |
| Http.SetBody | common/http.h:105-112 | the body pointer and length are set only when bytes remain past `t + 4` |
| Http.GetHeader | common/http.h:49-55 | returns -1 exactly when no header name matches ignoring ASCII case; otherwise returns the first index that matches |

## Left out

- `http_write_all` and the response helpers (`http_send_status_json`, the static-file sender) of `http.h` are not modelled: they write to a file descriptor.
- `now_s` and `http_date_rfc1123` of `timeutil.h` are not modelled: they read the clock and format with `strftime`.
- `jsonw_free` is not modelled: it only releases memory.
- Json.Writer.Reserve: assumes `malloc` and `realloc` succeed. So no writer call returns -1, except `jsonw_obj_end` and `jsonw_arr_end` at depth 0.
- Json.Writer.PairNumber: `snprintf("%.10g")` is the parameter `fmt`, whose output is required to fit the 64-byte buffer `tmp`. `snprintf` returns the length of the full output, so a longer one would make `jsonw_append` read past `tmp`, which is undefined behaviour. `%.10g` never produces that many bytes.
- Json.Writer.ObjBegin: requires fewer than 32 open containers. The C code does not check, and a 33rd write overflows `need_comma_stack`.
- Json.Writer.ArrBegin: requires fewer than 32 open containers, as ObjBegin does.
- Http.ParseRequest: requires `WellDefined`.
  - This excludes a NUL byte before the end of the header section, where `strstr`, `strchr` and `sscanf` would stop early.
  - It also excludes a header line whose text after the colon is only spaces and tabs. There `vlen - off` wraps around in `size_t` and the copy reads past the line.
- Http.ParseRequest: on -1 the fields `sscanf` filled before failing are not stated.
- Http.ParseRequest: `body` is an index into the caller's buffer rather than a pointer.
- Http.ParseRequest: the request line is scanned with `isspace` in the C locale. Locale-dependent classification is not modelled.
- Http.GetHeader: `strcasecmp` compares in the C locale. Other locales are not modelled.
- RingBuf.SensorSlot.Foreach: the callback and its `user` pointer are replaced by the sequence of (sample, index) calls it receives.
- RingBuf.SensorSlot.CopyChrono: requires `dst` to be a different array from the slot's buffer. The C code accepts a `dst` pointing into the slot's own samples. The model does not capture that aliasing: a copy into the slot itself can overwrite samples it has yet to read.
- Query.QueryGetParam: requires `outsz >= 1` when the key is present. With a match and `outsz == 0`, `outsz - 1` wraps around in `size_t` and `memcpy` writes far past `out`. Without a match, `outsz == 0` is modelled: 0 is returned and `out` is untouched.
- Query.StoreMatch: requires `outsz >= 1`, for the same reason as QueryGetParam; it is only called on a match.
- Sample readings: the `double` value is a `real`, only carried and never computed with.
- RingBuf.SensorSlot: `head` and `count` are `uint16_t` in C and `nat` here. Both stay at or below 256, so no wrap-around arises.
- The sensor name and type fields of `sensor_slot_t` are carried but never used by the ring code.
- `proto.h` and the sensor registry are not part of this model.
