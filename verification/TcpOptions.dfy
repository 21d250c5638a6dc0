/** TCP options: built by nfq2/lua.c, read by nfq2/lua.c and nfq2/darkmagic.c (RFC 9293, section 3.2). */
module TcpOptions {
  import opened Buffers
  import opened Words

  const KIND_END := 0
  const KIND_NOOP := 1
  const TCP_HEADER := 20
  const MAX_OPTIONS := 40

  /** A table with a kind and data; END and NOOP are a kind only. */
  datatype TcpOption = TcpOption(kind: byte, data: seq<byte>)

  predicate Single(o: TcpOption) {
    o.kind == KIND_END || o.kind == KIND_NOOP
  }

  function OptionSize(o: TcpOption): (n: nat)
    ensures n > 0
  {
    if Single(o) then 1 else 2 + |o.data|
  }

  function EncodeOption(o: TcpOption): (b: seq<byte>)
    ensures |b| == OptionSize(o)
  {
    if Single(o) then [o.kind] else [o.kind, OptionSize(o) % 256] + o.data
  }

  /** The options up to the first END. */
  function UpToEnd(opts: seq<TcpOption>): (r: seq<TcpOption>) {
    if opts == [] then [] else if opts[0].kind == KIND_END then [opts[0]] else [opts[0]] + UpToEnd(opts[1..])
  }

  function Encode(opts: seq<TcpOption>): seq<byte> {
    if opts == [] then [] else EncodeOption(opts[0]) + Encode(opts[1..])
  }

  function Ends(opts: seq<TcpOption>): bool {
    opts != [] && (opts[0].kind == KIND_END || Ends(opts[1..]))
  }

  function Noops(n: nat): (b: seq<byte>)
    ensures |b| == n && forall i :: 0 <= i < n ==> b[i] == KIND_NOOP
  {
    seq(n, i => KIND_NOOP)
  }

  /** How many bytes are missing to a multiple of four. */
  function Missing(n: nat): (k: nat)
    ensures k < 4 && (n + k) % 4 == 0
  {
    (4 - n % 4) % 4
  }

  lemma {:induction false} MissingNext(n: nat)
    requires n % 4 != 0
    ensures Missing(n) == Missing(n + 1) + 1
  {
  }

  lemma {:induction false} MissingAfterHeader(n: nat)
    ensures Missing(TCP_HEADER + n) == Missing(n)
  {
  }

  /** The whole option field. */
  function Field(opts: seq<TcpOption>): seq<byte> {
    var e := Encode(UpToEnd(opts));
    e + Noops(Missing(|e|))
  }

  // ---------------------------------------------------------------------------------------
  // Writing
  // ---------------------------------------------------------------------------------------

  lemma {:induction false} EncodeAppend(a: seq<TcpOption>, b: seq<TcpOption>)
    ensures Encode(a + b) == Encode(a) + Encode(b)
  {
    if a == [] {
      assert a + b == b;
    } else {
      assert (a + b)[1..] == a[1..] + b;
      EncodeAppend(a[1..], b);
    }
  }

  /** An option, and what there is to write after it. */
  function Onward(o: TcpOption, rest: seq<byte>): seq<byte> {
    if o.kind == KIND_END then EncodeOption(o) else EncodeOption(o) + rest
  }

  lemma {:induction false} FirstEncoded(opts: seq<TcpOption>)
    requires opts != []
    ensures Encode(UpToEnd(opts)) == Onward(opts[0], Encode(UpToEnd(opts[1..])))
  {
    assert Encode([opts[0]]) == EncodeOption(opts[0]) + [];
    if opts[0].kind != KIND_END {
      assert UpToEnd(opts)[1..] == UpToEnd(opts[1..]);
    }
  }

  /** todo[i] is what there is to write from option i on. */
  ghost predicate Todo(opts: seq<TcpOption>, todo: seq<seq<byte>>) {
    && |todo| == |opts| + 1 && todo[|opts|] == []
    && forall i :: 0 <= i < |opts| ==> todo[i] == Onward(opts[i], todo[i + 1])
  }

  lemma {:induction false} TodoOf(opts: seq<TcpOption>) returns (todo: seq<seq<byte>>)
    ensures Todo(opts, todo) && todo[0] == Encode(UpToEnd(opts))
  {
    if opts == [] {
      var none: seq<byte> := [];
      todo := [none];
    } else {
      var rest := TodoOf(opts[1..]);
      FirstEncoded(opts);
      todo := MoreTodo(opts, rest);
    }
  }

  lemma {:induction false} MoreTodo(opts: seq<TcpOption>, rest: seq<seq<byte>>) returns (todo: seq<seq<byte>>)
    requires opts != [] && Todo(opts[1..], rest)
    ensures Todo(opts, todo) && todo[0] == Onward(opts[0], rest[0])
  {
    todo := [Onward(opts[0], rest[0])] + rest;
    forall i | 0 <= i < |opts|
      ensures todo[i] == Onward(opts[i], todo[i + 1])
    {
      if i > 0 {
        assert opts[1..][i - 1] == opts[i] && rest[i - 1] == Onward(opts[1..][i - 1], rest[i]);
      }
    }
  }

  /** The first option is written, and what there was to write is what is written and what is left. */
  lemma {:induction false} OneWritten(all: seq<byte>, before: seq<byte>, o: TcpOption, rest: seq<byte>,
      after: seq<byte>)
    requires all == before + Onward(o, rest) && after == before + EncodeOption(o)
    ensures all == if o.kind == KIND_END then after else after + rest
  {
  }

  /** lua_reconstruct_tcphdr_options: buf holds the header, options go after its fixed part; offset is th_off. */
  method ReconstructOptions(opts: seq<TcpOption>, buf: array<byte>) returns (ok: bool, len: nat, offset: nat)
    modifies buf
    ensures ok <==> buf.Length >= TCP_HEADER && |Field(opts)| <= Least(buf.Length - TCP_HEADER, MAX_OPTIONS)
    ensures ok ==> len == TCP_HEADER + |Field(opts)| <= buf.Length && buf[TCP_HEADER..len] == Field(opts)
    ensures ok ==> buf[..TCP_HEADER] == old(buf[..TCP_HEADER]) && offset * 4 == len
  {
    if buf.Length < TCP_HEADER {
      return false, 0, 0;
    }
    var left := Least(buf.Length - TCP_HEADER, MAX_OPTIONS);
    var filled;
    ok, filled := WriteOptions(opts, buf, left);
    if !ok {
      return false, 0, 0;
    }
    ghost var e := buf[TCP_HEADER..filled];
    MissingAfterHeader(|e|);
    var end;
    ok, end := PadOptions(buf, filled, left - (filled - TCP_HEADER));
    if !ok {
      return false, 0, 0;
    }
    assert buf[TCP_HEADER..end] == buf[TCP_HEADER..filled] + buf[filled..end];
    return true, end, end / 4;
  }

  /** Fill up to a multiple of four bytes. */
  method PadOptions(buf: array<byte>, filled0: nat, left0: nat) returns (ok: bool, filled: nat)
    requires filled0 + left0 <= buf.Length
    modifies buf
    ensures ok <==> Missing(filled0) <= left0
    ensures ok ==> filled == filled0 + Missing(filled0) && buf[filled0..filled] == Noops(Missing(filled0))
    ensures buf[..filled0] == old(buf[..filled0])
  {
    var left := left0;
    filled := filled0;
    while filled % 4 != 0
      invariant filled0 <= filled && 0 <= left && filled + left == filled0 + left0
      invariant Missing(filled) + (filled - filled0) == Missing(filled0)
      invariant forall i :: filled0 <= i < filled ==> buf[i] == KIND_NOOP
      invariant buf[..filled0] == old(buf[..filled0])
      decreases Missing(filled)
    {
      MissingNext(filled);
      if left == 0 {
        return false, filled;
      }
      buf[filled] := KIND_NOOP;
      left, filled := left - 1, filled + 1;
    }
    return true, filled;
  }

  /** Store one option behind what is written. */
  method WriteOption(buf: array<byte>, filled: nat, o: TcpOption, ghost next: nat)
    requires TCP_HEADER <= filled && next == filled + OptionSize(o) <= buf.Length
    modifies buf
    ensures buf[TCP_HEADER..next] == old(buf[TCP_HEADER..filled]) + EncodeOption(o)
    ensures buf[..TCP_HEADER] == old(buf[..TCP_HEADER])
  {
    ghost var d := buf[..];
    Put(buf, filled, EncodeOption(o));
    ghost var e := buf[..];
    assert e[..filled] == d[..filled] && e[filled..next] == EncodeOption(o);
    JoinSlices(d, e, TCP_HEADER, filled, next, EncodeOption(o));
    assert d[..TCP_HEADER] == d[..filled][..TCP_HEADER] && e[..TCP_HEADER] == e[..filled][..TCP_HEADER];
  }

  /** The loop over the options; it stops at an END. */
  method WriteOptions(opts: seq<TcpOption>, buf: array<byte>, left0: nat) returns (ok: bool, filled: nat)
    requires TCP_HEADER + left0 <= buf.Length
    modifies buf
    ensures ok <==> |Encode(UpToEnd(opts))| <= left0
    ensures ok ==> filled == TCP_HEADER + |Encode(UpToEnd(opts))| && buf[TCP_HEADER..filled] == Encode(UpToEnd(opts))
    ensures buf[..TCP_HEADER] == old(buf[..TCP_HEADER])
  {
    ghost var todo := TodoOf(opts);
    ok, filled := WriteTodo(opts, buf, left0, todo);
  }

  method WriteTodo(opts: seq<TcpOption>, buf: array<byte>, left0: nat, ghost todo: seq<seq<byte>>)
    returns (ok: bool, filled: nat)
    requires TCP_HEADER + left0 <= buf.Length && Todo(opts, todo)
    modifies buf
    ensures ok <==> |todo[0]| <= left0
    ensures ok ==> filled == TCP_HEADER + |todo[0]| && buf[TCP_HEADER..filled] == todo[0]
    ensures buf[..TCP_HEADER] == old(buf[..TCP_HEADER])
  {
    var i, left := 0, left0;
    filled := TCP_HEADER;
    while i < |opts|
      invariant 0 <= i <= |opts| && 0 <= left && TCP_HEADER <= filled && filled + left == TCP_HEADER + left0
      invariant todo[0] == buf[TCP_HEADER..filled] + todo[i] && buf[..TCP_HEADER] == old(buf[..TCP_HEADER])
    {
      var l := OptionSize(opts[i]);
      assert todo[i] == Onward(opts[i], todo[i + 1]) && |todo[i]| >= l;
      if left == 0 || l > left {
        return false, 0;
      }
      ghost var written := buf[TCP_HEADER..filled];
      WriteOption(buf, filled, opts[i], filled + l);
      left, filled := left - l, filled + l;
      OneWritten(todo[0], written, opts[i], todo[i + 1], buf[TCP_HEADER..filled]);
      if opts[i].kind == KIND_END {
        return true, filled;
      }
      i := i + 1;
    }
    return true, filled;
  }

  // ---------------------------------------------------------------------------------------
  // Reading
  // ---------------------------------------------------------------------------------------

  /** Is there a whole option with a length at pos? */
  predicate Sized(d: seq<byte>, pos: nat)
    requires pos < |d|
  {
    pos + 1 < |d| && d[pos + 1] >= 2 && pos + d[pos + 1] <= |d|
  }

  /** What a reader sees at pos: the end of the list, or an option, its size, and whether it is an END. */
  datatype Seen = Stop | One(option: TcpOption, size: nat)

  function See(d: seq<byte>, pos: nat): (s: Seen)
    requires pos <= |d|
    ensures s.One? ==> 0 < s.size && pos + s.size <= |d|
  {
    if pos == |d| then Stop
    else if d[pos] == KIND_END || d[pos] == KIND_NOOP then One(TcpOption(d[pos], []), 1)
    else if !Sized(d, pos) then Stop
    else One(TcpOption(d[pos], d[pos + 2..pos + d[pos + 1]]), d[pos + 1])
  }

  /** lua_pushf_tcphdr_options: the options of an option field, from pos on, up to an END or something malformed */
  function ParseOptions(d: seq<byte>, pos: nat): seq<TcpOption>
    requires pos <= |d|
    decreases |d| - pos
  {
    var s := See(d, pos);
    if s.Stop? then []
    else if s.option.kind == KIND_END then [s.option]
    else [s.option] + ParseOptions(d, pos + s.size)
  }

  datatype Found = NotFound | FoundAt(pos: nat)

  /** tcp_find_option */
  function FindOption(d: seq<byte>, pos: nat, kind: byte): (r: Found)
    requires pos <= |d|
    ensures r.FoundAt? ==> pos <= r.pos < |d| && Sized(d, r.pos) && d[r.pos] == kind
    decreases |d| - pos
  {
    var s := See(d, pos);
    if s.Stop? || s.option.kind == KIND_END then NotFound
    else if s.option.kind != KIND_NOOP && s.option.kind == kind then FoundAt(pos)
    else FindOption(d, pos + s.size, kind)
  }

  method PushOptions(d: seq<byte>) returns (r: seq<TcpOption>)
    ensures r == ParseOptions(d, 0)
  {
    var t: nat := 0;
    r := [];
    ghost var all := ParseOptions(d, 0);
    while t < |d|
      invariant t <= |d| && all == r + ParseOptions(d, t)
    {
      var opt := d[t];
      var o, n := TcpOption(opt, []), 1;
      if opt != KIND_NOOP && opt != KIND_END {
        if !Sized(d, t) {
          return;
        }
        o, n := TcpOption(opt, d[t + 2..t + d[t + 1]]), d[t + 1];
      }
      if opt == KIND_END {
        return r + [o];
      }
      Regroup(all, r, ParseOptions(d, t), [o], ParseOptions(d, t + n), r + [o]);
      r, t := r + [o], t + n;
    }
  }

  method TcpFindOption(d: seq<byte>, kind: byte) returns (r: Found)
    ensures r == FindOption(d, 0, kind)
  {
    var t: nat := 0;
    while t < |d|
      invariant t <= |d| && FindOption(d, 0, kind) == FindOption(d, t, kind)
    {
      if d[t] == KIND_END {
        return NotFound;
      } else if d[t] == KIND_NOOP {
        t := t + 1;
      } else {
        if !Sized(d, t) {
          return NotFound;
        }
        if d[t] == kind {
          return FoundAt(t);
        }
        t := t + d[t + 1];
      }
    }
    return NotFound;
  }

  // ---------------------------------------------------------------------------------------
  // Round trip
  // ---------------------------------------------------------------------------------------

  /** An option as it is read back: END and NOOP have no data. */
  function Plain(o: TcpOption): TcpOption {
    if Single(o) then TcpOption(o.kind, []) else o
  }

  function PlainAll(opts: seq<TcpOption>): (r: seq<TcpOption>)
    ensures |r| == |opts|
  {
    seq(|opts|, i requires 0 <= i < |opts| => Plain(opts[i]))
  }

  /** Every option that is written has a size that fits its length byte. */
  predicate FitsByte(opts: seq<TcpOption>) {
    opts != [] ==> OptionSize(opts[0]) < 256 && (opts[0].kind == KIND_END || FitsByte(opts[1..]))
  }

  lemma {:induction false} ShortFits(opts: seq<TcpOption>)
    requires |Encode(UpToEnd(opts))| < 256
    ensures FitsByte(opts)
  {
    if opts != [] {
      FirstEncoded(opts);
      if opts[0].kind != KIND_END {
        ShortFits(opts[1..]);
      }
    }
  }

  function NoopOptions(n: nat): seq<TcpOption> {
    seq(n, i => TcpOption(KIND_NOOP, []))
  }

  lemma {:induction false} ParseNoops(d: seq<byte>, pos: nat)
    requires pos <= |d| && forall i :: pos <= i < |d| ==> d[i] == KIND_NOOP
    ensures ParseOptions(d, pos) == NoopOptions(|d| - pos)
    decreases |d| - pos
  {
    if pos < |d| {
      ParseNoops(d, pos + 1);
      assert NoopOptions(|d| - pos) == [TcpOption(KIND_NOOP, [])] + NoopOptions(|d| - (pos + 1));
    }
  }

  lemma {:induction false} FindInNoops(d: seq<byte>, pos: nat, kind: byte)
    requires pos <= |d| && forall i :: pos <= i < |d| ==> d[i] == KIND_NOOP
    ensures FindOption(d, pos, kind) == NotFound
    decreases |d| - pos
  {
    if pos < |d| {
      FindInNoops(d, pos + 1, kind);
    }
  }

  /** An option is seen for what it is. */
  lemma {:induction false} SeeOption(d: seq<byte>, pos: nat, o: TcpOption, n: nat)
    requires n == OptionSize(o) < 256 && pos + n <= |d| && d[pos..pos + n] == EncodeOption(o)
    ensures See(d, pos) == One(Plain(o), n) && (!Single(o) ==> d[pos + 1] == n && d[pos + 2..pos + n] == o.data)
  {
    assert d[pos] == d[pos..pos + n][0];
    if !Single(o) {
      assert d[pos + 1] == d[pos..pos + n][1];
      assert d[pos + 2..pos + n] == d[pos..pos + n][2..];
    }
  }

  lemma {:induction false} CutFirst(d: seq<byte>, pre: seq<byte>, opts: seq<TcpOption>, pad: seq<byte>, n: nat,
      next: seq<byte>, e: seq<byte>)
    requires opts != [] && d == pre + Encode(UpToEnd(opts)) + pad
    requires e == EncodeOption(opts[0]) && n == |e| && next == pre + e
    ensures |next| == |pre| + n <= |d| && d[|pre|..|pre| + n] == e
    ensures opts[0].kind != KIND_END ==> d == next + Encode(UpToEnd(opts[1..])) + pad
  {
    FirstEncoded(opts);
    var rest := if opts[0].kind == KIND_END then [] else Encode(UpToEnd(opts[1..]));
    SplitFirst(d, pre, e, rest, Encode(UpToEnd(opts)), pad, n);
  }

  /** The first of the options that were written, and where the others start. */
  lemma {:induction false} SeeFirst(d: seq<byte>, pre: seq<byte>, opts: seq<TcpOption>, pad: nat, n: nat,
      next: seq<byte>)
    requires opts != [] && FitsByte(opts) && d == pre + Encode(UpToEnd(opts)) + Noops(pad)
    requires n == OptionSize(opts[0]) && next == pre + EncodeOption(opts[0])
    ensures |next| == |pre| + n <= |d| && See(d, |pre|) == One(Plain(opts[0]), n)
    ensures !Single(opts[0]) ==> d[|pre| + 1] == n && d[|pre| + 2..|pre| + n] == opts[0].data
    ensures opts[0].kind != KIND_END ==> d == next + Encode(UpToEnd(opts[1..])) + Noops(pad)
  {
    CutFirst(d, pre, opts, Noops(pad), n, next, EncodeOption(opts[0]));
    SeeOption(d, |pre|, opts[0], n);
  }

  /** What is read when everything has been written. */
  function ReadBack(opts: seq<TcpOption>, pad: nat): seq<TcpOption> {
    PlainAll(UpToEnd(opts)) + if Ends(opts) then [] else NoopOptions(pad)
  }

  lemma {:induction false} ReadBackFirst(opts: seq<TcpOption>, pad: nat)
    requires opts != []
    ensures ReadBack(opts, pad) ==
      [Plain(opts[0])] + (if opts[0].kind == KIND_END then [] else ReadBack(opts[1..], pad))
  {
    if opts[0].kind != KIND_END {
      assert PlainAll(UpToEnd(opts)) == [Plain(opts[0])] + PlainAll(UpToEnd(opts[1..]));
    }
  }

  lemma {:induction false} ParseStep(d: seq<byte>, pos: nat, o: TcpOption, n: nat, q: nat)
    requires pos < q == pos + n <= |d| && See(d, pos) == One(o, n)
    ensures ParseOptions(d, pos) == [o] + if o.kind == KIND_END then [] else ParseOptions(d, q)
  {
  }

  lemma {:induction false} FindStep(d: seq<byte>, pos: nat, o: TcpOption, n: nat, q: nat, kind: byte)
    requires pos < q == pos + n <= |d| && See(d, pos) == One(o, n)
    ensures FindOption(d, pos, kind) ==
      if o.kind == KIND_END then NotFound
      else if !Single(o) && o.kind == kind then FoundAt(pos)
      else FindOption(d, q, kind)
  {
    if o.kind == KIND_NOOP {
      assert FindOption(d, pos, kind) == FindOption(d, q, kind);
    }
  }

  /** Reading what was written gives the options up to the first END, or all of them and the padding. */
  lemma {:induction false} ParseOfEncode(d: seq<byte>, pre: seq<byte>, opts: seq<TcpOption>, pad: nat, pos: nat)
    requires FitsByte(opts) && d == pre + Encode(UpToEnd(opts)) + Noops(pad) && pos == |pre|
    ensures ParseOptions(d, pos) == ReadBack(opts, pad)
    decreases |opts|
  {
    if opts == [] {
      ParseNoops(d, pos);
      assert ReadBack(opts, pad) == NoopOptions(pad);
    } else {
      var o, n := opts[0], OptionSize(opts[0]);
      var next := pre + EncodeOption(o);
      SeeFirst(d, pre, opts, pad, n, next);
      ParseStep(d, pos, Plain(o), n, |next|);
      ReadBackFirst(opts, pad);
      if o.kind != KIND_END {
        ParseOfEncode(d, next, opts[1..], pad, |next|);
      }
    }
  }

  /** The first option of a kind before an END; |opts| when there is none. */
  function FirstOf(opts: seq<TcpOption>, kind: byte): (i: nat)
    ensures i <= |opts| && (i < |opts| ==> opts[i].kind == kind && !Single(opts[i]))
  {
    if opts == [] then 0
    else if opts[0].kind == KIND_END then |opts|
    else if !Single(opts[0]) && opts[0].kind == kind then 0
    else FirstOf(opts[1..], kind) + 1
  }

  /** r is the option of that kind, as it was written. */
  ghost predicate FindsFirst(d: seq<byte>, r: Found, opts: seq<TcpOption>, kind: byte) {
    var i := FirstOf(opts, kind);
    if i == |opts| then r == NotFound
    else
      && r.FoundAt? && r.pos + OptionSize(opts[i]) <= |d| && d[r.pos + 1] == OptionSize(opts[i])
      && d[r.pos + 2..r.pos + OptionSize(opts[i])] == opts[i].data
  }

  lemma {:induction false} FindsFirstNext(d: seq<byte>, r: Found, opts: seq<TcpOption>, kind: byte)
    requires opts != [] && opts[0].kind != KIND_END && (Single(opts[0]) || opts[0].kind != kind)
      && FindsFirst(d, r, opts[1..], kind)
    ensures FindsFirst(d, r, opts, kind)
  {
  }

  /** tcp_find_option finds exactly the first option of a kind that was written before an END. */
  lemma {:induction false} FindOfEncode(d: seq<byte>, pre: seq<byte>, opts: seq<TcpOption>, pad: nat, kind: byte,
      pos: nat)
    requires FitsByte(opts) && d == pre + Encode(UpToEnd(opts)) + Noops(pad) && pos == |pre|
    ensures FindsFirst(d, FindOption(d, pos, kind), opts, kind)
    decreases |opts|
  {
    if opts == [] {
      FindInNoops(d, pos, kind);
    } else {
      var o, n := opts[0], OptionSize(opts[0]);
      var next := pre + EncodeOption(o);
      SeeFirst(d, pre, opts, pad, n, next);
      FindStep(d, pos, Plain(o), n, |next|, kind);
      if o.kind != KIND_END && (Single(o) || o.kind != kind) {
        FindOfEncode(d, next, opts[1..], pad, kind, |next|);
        FindsFirstNext(d, FindOption(d, |next|, kind), opts, kind);
      }
    }
  }

  /** The option field that was built is read back, and every option in it is found. */
  lemma {:induction false} FieldReadsBack(opts: seq<TcpOption>, kind: byte)
    requires |Field(opts)| <= MAX_OPTIONS
    ensures ParseOptions(Field(opts), 0) == ReadBack(opts, Missing(|Encode(UpToEnd(opts))|))
    ensures FindsFirst(Field(opts), FindOption(Field(opts), 0, kind), opts, kind)
  {
    var e := Encode(UpToEnd(opts));
    ShortFits(opts);
    assert Field(opts) == [] + e + Noops(Missing(|e|));
    ParseOfEncode(Field(opts), [], opts, Missing(|e|), 0);
    FindOfEncode(Field(opts), [], opts, Missing(|e|), kind, 0);
  }

  // ---------------------------------------------------------------------------------------
  // Any bytes at all
  // ---------------------------------------------------------------------------------------

  /** No option starts here: the field ends, or a length is missing, too small, or points behind the end. */
  predicate Broken(d: seq<byte>, pos: nat) {
    pos >= |d| ||
    (d[pos] != KIND_END && d[pos] != KIND_NOOP && (pos + 1 >= |d| || d[pos + 1] < 2 || pos + d[pos + 1] > |d|))
  }

  /** The bytes from pos on are the options, up to an END or to where nothing more can be read. */
  predicate Lists(d: seq<byte>, pos: nat, opts: seq<TcpOption>) {
    var e := Encode(opts);
    && pos + |e| <= |d| && d[pos..pos + |e|] == e
    && (Ends(opts) || Broken(d, pos + |e|))
    && UpToEnd(opts) == opts && forall i :: 0 <= i < |opts| ==> OptionSize(opts[i]) < 256 && Plain(opts[i]) == opts[i]
  }

  /** Where the first option of a kind starts. */
  function Target(opts: seq<TcpOption>, pos: nat, kind: byte): Found {
    var i := FirstOf(opts, kind);
    if i == |opts| then NotFound else FoundAt(pos + |Encode(opts[..i])|)
  }

  /** The bytes of an option that is seen are what it is encoded to. */
  lemma {:induction false} SeenIsEncoded(d: seq<byte>, pos: nat, o: TcpOption, n: nat)
    requires pos <= |d| && See(d, pos) == One(o, n)
    ensures n == OptionSize(o) < 256 && Plain(o) == o && d[pos..pos + n] == EncodeOption(o)
  {
    if !Single(o) {
      assert d[pos..pos + n] == [d[pos], d[pos + 1]] + d[pos + 2..pos + n];
    }
  }

  lemma {:induction false} ListsOneMore(d: seq<byte>, pos: nat, o: TcpOption, n: nat, rest: seq<TcpOption>,
      opts: seq<TcpOption>)
    requires pos <= |d| && See(d, pos) == One(o, n) && opts == [o] + rest
    requires if o.kind == KIND_END then rest == [] else Lists(d, pos + n, rest)
    ensures Lists(d, pos, opts)
  {
    SeenIsEncoded(d, pos, o, n);
    var e := Encode(rest);
    assert opts[1..] == rest && Encode(opts) == EncodeOption(o) + e;
    assert d[pos..pos + n + |e|] == d[pos..pos + n] + d[pos + n..pos + n + |e|];
    forall i | 0 <= i < |opts|
      ensures OptionSize(opts[i]) < 256 && Plain(opts[i]) == opts[i]
    {
      if i > 0 {
        assert opts[i] == rest[i - 1];
      }
    }
  }

  /** Whatever the field holds, what is listed is what stands there. */
  lemma {:induction false} ListedStandsThere(d: seq<byte>, pos: nat, opts: seq<TcpOption>)
    requires pos <= |d| && opts == ParseOptions(d, pos)
    ensures Lists(d, pos, opts)
    decreases |d| - pos
  {
    var s := See(d, pos);
    if s.Stop? {
      assert d[pos..pos + 0] == [];
    } else {
      var o, n := s.option, s.size;
      ParseStep(d, pos, o, n, pos + n);
      if o.kind == KIND_END {
        ListsOneMore(d, pos, o, n, [], opts);
      } else {
        ListedStandsThere(d, pos + n, ParseOptions(d, pos + n));
        ListsOneMore(d, pos, o, n, ParseOptions(d, pos + n), opts);
      }
    }
  }

  /** The same, option by option. */
  function Scan(opts: seq<TcpOption>, pos: nat, kind: byte): Found {
    if opts == [] || opts[0].kind == KIND_END then NotFound
    else if !Single(opts[0]) && opts[0].kind == kind then FoundAt(pos)
    else Scan(opts[1..], pos + OptionSize(opts[0]), kind)
  }

  lemma {:induction false} ScanIsTarget(opts: seq<TcpOption>, pos: nat, kind: byte)
    ensures Scan(opts, pos, kind) == Target(opts, pos, kind)
    decreases |opts|
  {
    if opts != [] && opts[0].kind != KIND_END {
      var rest := opts[1..];
      ScanIsTarget(rest, pos + OptionSize(opts[0]), kind);
      var i := FirstOf(rest, kind);
      assert opts[..0] == [];
      if i < |rest| {
        assert opts[..i + 1][1..] == rest[..i];
      }
    }
  }

  lemma {:induction false} ScanNext(o: TcpOption, rest: seq<TcpOption>, opts: seq<TcpOption>, pos: nat, next: nat,
      kind: byte, r: Found, r1: Found)
    requires opts == [o] + rest && next == pos + OptionSize(o)
    requires o.kind != KIND_END ==> r1 == Scan(rest, next, kind)
    requires r ==
      if o.kind == KIND_END then NotFound else if !Single(o) && o.kind == kind then FoundAt(pos) else r1
    ensures r == Scan(opts, pos, kind)
  {
    assert opts[0] == o && opts[1..] == rest;
  }

  lemma {:induction false} FindsScanned(d: seq<byte>, pos: nat, opts: seq<TcpOption>, kind: byte, r: Found)
    requires pos <= |d| && opts == ParseOptions(d, pos) && r == FindOption(d, pos, kind)
    ensures r == Scan(opts, pos, kind)
    decreases |d| - pos
  {
    var s := See(d, pos);
    if s.One? {
      var o, q := s.option, pos + s.size;
      var rest, r1 := if o.kind == KIND_END then [] else ParseOptions(d, q), FindOption(d, q, kind);
      SeenIsEncoded(d, pos, o, s.size);
      ParseStep(d, pos, o, s.size, q);
      FindStep(d, pos, o, s.size, q, kind);
      if o.kind != KIND_END {
        FindsScanned(d, q, rest, kind, r1);
      }
      ScanNext(o, rest, opts, pos, q, kind, r, r1);
    }
  }

  /** Whatever the field holds, tcp_find_option finds the first of the listed options of a kind, and no other. */
  lemma {:induction false} FindsListed(d: seq<byte>, pos: nat, kind: byte)
    requires pos <= |d|
    ensures FindOption(d, pos, kind) == Target(ParseOptions(d, pos), pos, kind)
  {
    var opts := ParseOptions(d, pos);
    FindsScanned(d, pos, opts, kind, FindOption(d, pos, kind));
    ScanIsTarget(opts, pos, kind);
  }
}
