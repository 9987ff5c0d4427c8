/** The routines of base64/base64.c over buffers, each proved against Base64Spec. */
module Base64Codec {
  import opened Bytes
  import opened Seqs
  import opened Base64Spec
  import opened Base64Theorems

  // ---------- encoder ----------

  /** One round of the loop of base64_encode: up to four characters, as far as there is room. */
  method EncodeQuad(inp: seq<Byte>, p: nat, out: array<Byte>, o: nat, left: nat)
    returns (inlen: nat, o': nat, left': nat)
    requires p < |inp| && 0 < left && o + left <= out.Length
    modifies out
    ensures o' + left' == o + left && o' == o + Min(4, left)
    ensures left' > 0 ==> inlen == if |inp| - p > 3 then |inp| - p - 3 else 0
    ensures forall k :: o <= k < o' ==> out[k] == Quad(inp, p)[k - o]
    ensures forall k :: 0 <= k < o || o' <= k < out.Length ==> out[k] == old(out[k])
  {
    inlen, o', left' := |inp| - p, o, left;
    out[o'] := Char0(inp[p]);
    o', left' := o' + 1, left' - 1;
    if left' == 0 { return; }

    inlen := inlen - 1;
    out[o'] := Char1(inp[p], if inlen > 0 then inp[p + 1] else 0);
    o', left' := o' + 1, left' - 1;
    if left' == 0 { return; }

    if inlen > 0 {
      inlen := inlen - 1;
      out[o'] := Char2(inp[p + 1], if inlen > 0 then inp[p + 2] else 0);
    } else {
      out[o'] := PAD;
    }
    o', left' := o' + 1, left' - 1;
    if left' == 0 { return; }

    out[o'] := if inlen > 0 then Char3(inp[p + 2]) else PAD;
    o', left' := o' + 1, left' - 1;
    if left' == 0 { return; }
    if inlen > 0 { inlen := inlen - 1; }
  }

  /** base64_encode: any buffer size receives exactly that prefix of the encoding, and a NUL is
      written only when room is left after it. */
  method EncodeInto(inp: seq<Byte>, out: array<Byte>, outlen: nat)
    requires outlen <= out.Length
    modifies out
    ensures var e := Encode(inp);
            && (forall k :: 0 <= k < |e| && k < outlen ==> out[k] == e[k])
            && (|e| < outlen ==> out[|e|] == 0)
            && (forall k :: 0 <= k < out.Length && (k > |e| || k >= outlen) ==> out[k] == old(out[k]))
  {
    hide Quad, Encode;
    ghost var e, g: nat := Encode(inp), 0;
    var p: nat, inlen: nat, o: nat, left: nat := 0, |inp|, 0, outlen;
    while inlen > 0 && left > 0
      invariant o + left == outlen && o <= |e|
      invariant left > 0 && inlen > 0 ==> p == 3 * g == |inp| - inlen && o == 4 * g
      invariant left > 0 && inlen == 0 ==> o == |e|
      invariant forall k :: 0 <= k < o ==> out[k] == e[k]
      invariant forall k :: o <= k < out.Length ==> out[k] == old(out[k])
      decreases left
    {
      EncodeQuadAt(inp, g);
      inlen, o, left := EncodeQuad(inp, p, out, o, left);
      g := g + 1;
      if inlen > 0 { p := p + 3; }
    }
    if left > 0 {
      out[o] := 0;
    }
  }

  // ---------- decoder ----------

  /** struct base64_decode_context. */
  class Context {
    var i: nat
    const buf: array<Byte>

    ghost predicate Valid()
      reads this
    {
      i <= 4 && buf.Length == 4
    }

    /** The characters of an unfinished group; a full buffer has already been used. */
    ghost function Carry(): (s: seq<Byte>)
      requires Valid()
      reads this, buf
      ensures |s| < 4
    {
      if i == 4 then [] else buf[..i]
    }

    /** base64_decode_ctx_init. */
    constructor ()
      ensures Valid() && Carry() == [] && fresh(buf)
    {
      i := 0;
      buf := new Byte[4];
    }
  }

  /** The copying half of get_4: move characters into the buffer until it is full. */
  method Fill(ctx: Context, inp: seq<Byte>, p: nat) returns (p': nat)
    requires ctx.Valid() && ctx.i < 4 && p <= |inp|
    modifies ctx, ctx.buf
    ensures ctx.Valid() && p <= p' <= |inp|
    ensures ctx.buf[..ctx.i] == old(ctx.buf[..ctx.i]) + DropNewlines(inp[p..p'])
    ensures ctx.i == 4 || p' == |inp|
    ensures p < |inp| ==> p < p'
  {
    p' := p;
    ghost var c := ctx.buf[..ctx.i];
    ghost var got := c;
    assert got == c + DropNewlines(inp[p..p]);
    hide DropNewlines;
    while p' < |inp|
      invariant p <= p' <= |inp|
      invariant ctx.i <= 3 && got == ctx.buf[..ctx.i]
      invariant got == c + DropNewlines(inp[p..p'])
    {
      var ch := inp[p'];
      DropNewlinesSnoc(inp, p, p');
      Assoc(c, DropNewlines(inp[p..p']), Keep(ch));
      p' := p' + 1;
      got := got + Keep(ch);
      if ch != LF {
        ctx.buf[ctx.i] := ch;
        ctx.i := ctx.i + 1;
        assert ctx.buf[..ctx.i] == got;
        if ctx.i == 4 { break; }
      }
    }
  }

  /** get_4: hand out the next four non-newline characters, or all there are, as `block`. */
  method Get4(ctx: Context, inp: seq<Byte>, p: nat) returns (block: seq<Byte>, p': nat)
    requires ctx.Valid() && p <= |inp|
    modifies ctx, ctx.buf
    ensures ctx.Valid() && p <= p' <= |inp|
    ensures block == old(ctx.Carry()) + DropNewlines(inp[p..p'])
    ensures |block| == 4 || (|block| < 4 && p' == |inp|)
    ensures ctx.Carry() == if |block| == 4 then [] else block
    ensures p < |inp| ==> p < p'
  {
    hide DropNewlines;
    if ctx.i == 4 { ctx.i := 0; }
    if ctx.i == 0 && 4 <= |inp| - p && LF !in inp[p..p + 4] {
      DropNewlinesNone(inp[p..p + 4]);
      return inp[p..p + 4], p + 4;
    }
    p' := Fill(ctx, inp, p);
    block := ctx.buf[..ctx.i];
  }

  /** decode_4: write as much of the block's bytes as fits. */
  method Decode4(s: seq<Byte>, out: array<Byte>, o: nat, left: nat) returns (ok: bool, o': nat, left': nat)
    requires o + left <= out.Length
    modifies out
    ensures ok == DecodeBlock(s).ok
    ensures o' + left' == o + left
    ensures o' == o + Min(|DecodeBlock(s).bytes|, left)
    ensures forall k :: o <= k < o' ==> out[k] == DecodeBlock(s).bytes[k - o]
    ensures forall k :: 0 <= k < o || o' <= k < out.Length ==> out[k] == old(out[k])
  {
    hide Sextet, IsBase64, Byte0, Byte1, Byte2;
    o', left' := o, left;
    if |s| < 2 { return false, o', left'; }
    if !IsBase64(s[0]) || !IsBase64(s[1]) { return false, o', left'; }
    if left' > 0 {
      out[o'] := Byte0(s[0], s[1]);
      o', left' := o' + 1, left' - 1;
    }
    if |s| == 2 { return false, o', left'; }
    if s[2] == PAD {
      if |s| != 4 { return false, o', left'; }
      if s[3] != PAD { return false, o', left'; }
    } else {
      if !IsBase64(s[2]) { return false, o', left'; }
      if left' > 0 {
        out[o'] := Byte1(s[1], s[2]);
        o', left' := o' + 1, left' - 1;
      }
      if |s| == 3 { return false, o', left'; }
      if s[3] == PAD {
        if |s| != 4 { return false, o', left'; }
      } else {
        if !IsBase64(s[3]) { return false, o', left'; }
        if left' > 0 {
          out[o'] := Byte2(s[2], s[3]);
          o', left' := o' + 1, left' - 1;
        }
      }
    }
    ok := true;
  }

  /** `o` is the write position after `emitted` was sent to a buffer that holds `outlen` bytes. */
  ghost predicate Wrote(out: array<Byte>, o: nat, outlen: nat, emitted: seq<Byte>)
    reads out
  {
    && o == Min(|emitted|, outlen) && outlen <= out.Length
    && forall k :: 0 <= k < o ==> out[k] == emitted[k]
  }

  /** The flushing call of base64_decode_ctx (no input): only what the context holds is decoded. */
  method DecodeFlush(ctx: Context, out: array<Byte>, outlen: nat) returns (ok: bool, n: nat)
    requires ctx.Valid() && outlen <= out.Length && out != ctx.buf
    modifies ctx, ctx.buf, out
    ensures ctx.Valid() && ctx.Carry() == old(ctx.Carry())
    ensures ok <==> old(ctx.Carry()) == []
    ensures Wrote(out, n, outlen, DecodeBlock(old(ctx.Carry())).bytes)
    ensures forall k :: outlen <= k < out.Length ==> out[k] == old(out[k])
  {
    assert DecodeBlock([]).bytes == [];
    hide DecodeBlock;
    var block, p := Get4(ctx, [], 0);
    assert block == old(ctx.Carry());
    var inlen, left := |block|, outlen;
    n := 0;
    if inlen != 0 {
      ok, n, left := Decode4(block, out, 0, outlen);
      assert !ok;
    }
    ok := inlen == 0;
  }

  ghost function CarryOf(ctx: Context?): seq<Byte>
    requires ctx != null ==> ctx.Valid()
    reads ctx, if ctx == null then {} else {ctx.buf}
  {
    if ctx == null then [] else ctx.Carry()
  }

  lemma WroteMore(outleft: nat, outlen: nat, o: nat, emitted: seq<Byte>, bytes: seq<Byte>)
    requires o == Min(|emitted|, outlen) && outleft == outlen - o
    ensures o + Min(|bytes|, outleft) == Min(|emitted + bytes|, outlen)
    ensures forall k :: 0 <= k < o ==> (emitted + bytes)[k] == emitted[k]
    ensures outleft > 0 ==> forall k :: o <= k < |emitted + bytes| ==> (emitted + bytes)[k] == bytes[k - o]
  {
  }

  /** decode_4 continuing an output: what was emitted grows by the block's bytes. */
  method Decode4More(s: seq<Byte>, out: array<Byte>, o: nat, outlen: nat, ghost emitted: seq<Byte>)
    returns (ok: bool, o': nat)
    requires Wrote(out, o, outlen, emitted)
    modifies out
    ensures ok == DecodeBlock(s).ok
    ensures Wrote(out, o', outlen, emitted + DecodeBlock(s).bytes)
    ensures Wrote(out, o, outlen, emitted)
    ensures forall k :: outlen <= k < out.Length ==> out[k] == old(out[k])
  {
    hide DecodeBlock;
    WroteMore(outlen - o, outlen, o, emitted, DecodeBlock(s).bytes);
    var left;
    ok, o', left := Decode4(s, out, o, outlen - o);
  }

  /** The inner loop of base64_decode_ctx: whole blocks straight from the input, until decode_4
      refuses one. What the refused block wrote is beyond `n'`. */
  method DecodeFast(ghost nl: bool, inp: seq<Byte>, p: nat, out: array<Byte>, n: nat, outlen: nat,
                    ghost emitted: seq<Byte>, ghost goal: Run)
    returns (p': nat, n': nat, ghost emitted': seq<Byte>)
    requires p <= |inp| && Wrote(out, n, outlen, emitted)
    requires goal == Prepend(emitted, Goal(nl, [], inp[p..]))
    modifies out
    ensures p <= p' <= |inp| && Wrote(out, n', outlen, emitted')
    ensures goal == Prepend(emitted', Goal(nl, [], inp[p'..]))
    ensures !DecodeBlock(inp[p'..]).ok
    ensures forall k :: outlen <= k < out.Length ==> out[k] == old(out[k])
  {
    hide DecodeBlock, Goal, Wrote;
    p', n', emitted' := p, n, emitted;
    while true
      invariant p <= p' <= |inp| && Wrote(out, n', outlen, emitted')
      invariant goal == Prepend(emitted', Goal(nl, [], inp[p'..]))
      invariant forall k :: outlen <= k < out.Length ==> out[k] == old(out[k])
      decreases |inp| - p'
    {
      var ok, o := Decode4More(inp[p'..], out, n', outlen, emitted');
      if !ok { break; }
      ghost var bytes := DecodeBlock(inp[p'..]).bytes;
      GoalFast(nl, inp[p'..]);
      assert inp[p'..][4..] == inp[p' + 4..];
      PrependTwice(emitted', bytes, Goal(nl, [], inp[p' + 4..]));
      p', n', emitted' := p' + 4, o, emitted' + bytes;
    }
  }

  /** base64_decode_ctx. With a context, the stream buffered in it is continued; without one, the
      input is decoded as a unit. */
  method DecodeCtx(ctx: Context?, inp: seq<Byte>, out: array<Byte>, outlen: nat) returns (ok: bool, n: nat)
    requires outlen <= out.Length
    requires ctx != null ==> ctx.Valid() && out != ctx.buf
    modifies ctx, if ctx == null then {} else {ctx.buf}, out
    ensures ctx != null ==> ctx.Valid()
    ensures ctx != null && inp == [] ==>
              && CarryOf(ctx) == old(CarryOf(ctx))
              && (ok <==> old(CarryOf(ctx)) == [])
              && Wrote(out, n, outlen, DecodeBlock(old(CarryOf(ctx))).bytes)
    ensures ctx == null || inp != [] ==>
              var r := Goal(ctx != null, old(CarryOf(ctx)), inp);
              && ok == r.ok
              && Wrote(out, n, outlen, r.bytes)
              && (ctx != null && ok ==> CarryOf(ctx) == r.rest)
    ensures forall k :: outlen <= k < out.Length ==> out[k] == old(out[k])
  {
    hide DecodeBlock, DropNewlines, DecodeGroups, DecodeStrict, Goal;
    var ignoreNewlines := ctx != null;
    if ignoreNewlines && inp == [] {
      ok, n := DecodeFlush(ctx, out, outlen);
      return;
    }
    var fast := ctx == null || ctx.i == 0;
    var p: nat := 0;
    n := 0;
    ghost var emitted: seq<Byte> := [];
    ghost var goal := Goal(ignoreNewlines, CarryOf(ctx), inp);
    assert inp[0..] == inp;
    EmptyLeft(goal.bytes);
    while true
      invariant p <= |inp| && Wrote(out, n, outlen, emitted)
      invariant ctx != null ==> ctx.Valid()
      invariant fast ==> CarryOf(ctx) == []
      invariant goal == Prepend(emitted, Goal(ignoreNewlines, CarryOf(ctx), inp[p..]))
      invariant forall k :: outlen <= k < out.Length ==> out[k] == old(out[k])
      decreases |inp| - p
    {
      if fast {
        p, n, emitted := DecodeFast(ignoreNewlines, inp, p, out, n, outlen, emitted, goal);
      }
      if p == |inp| {
        assert inp[p..] == [];
        GoalEnd(ignoreNewlines, CarryOf(ctx));
        EmptyRight(emitted);
        return true, n;
      }
      if inp[p] == LF && ignoreNewlines {
        GoalNewline(CarryOf(ctx), inp[p..]);
        assert inp[p..][1..] == inp[p + 1..];
        p := p + 1;
        continue;
      }
      if ctx == null {
        ok, n := Decode4More(inp[p..], out, n, outlen, emitted);
        GoalStuck(inp[p..]);
        return false, n;
      }
      ghost var carry := CarryOf(ctx);
      var block, q := Get4(ctx, inp, p);
      GoalStep(carry, inp, p, q, block);
      if |block| < 4 {
        EmptyRight(emitted);
        return true, n;
      }
      ghost var bytes := DecodeBlock(block).bytes;
      var good;
      good, n := Decode4More(block, out, n, outlen, emitted);
      if !good {
        return false, n;
      }
      PrependTwice(emitted, bytes, Goal(true, [], inp[q..]));
      emitted := emitted + bytes;
      p := q;
    }
  }

  // ---------- allocating variants ----------

  /** base64_encode_alloc with a size_t of `w` values: a null result means that the length of the
      encoding does not fit. */
  method EncodeAlloc(inp: seq<Byte>, w: nat) returns (out: array?<Byte>, len: nat)
    requires 16 <= w && w % 4 == 0 && |inp| < w
    ensures out == null <==> 1 + |Encode(inp)| >= w
    ensures out == null ==> len == 0
    ensures out != null ==> fresh(out) && out.Length == len + 1 && len == |Encode(inp)|
    ensures out != null ==> out[..len] == Encode(inp) && out[len] == 0
  {
    OverflowTest(|inp|, w);
    hide Encode;
    var outlen := WrappedLength(|inp|, w);
    if |inp| > outlen {
      return null, 0;
    }
    out := new Byte[outlen];
    EncodeInto(inp, out, outlen);
    len := outlen - 1;
  }

  /** base64_decode_alloc_ctx: null on failure, otherwise as much of the decoding as NeedLen holds. */
  method DecodeAlloc(ctx: Context?, inp: seq<Byte>) returns (out: array?<Byte>, len: nat)
    requires ctx != null ==> ctx.Valid()
    modifies ctx, if ctx == null then {} else {ctx.buf}
    ensures ctx != null ==> ctx.Valid()
    ensures ctx != null && inp == [] ==>
              && CarryOf(ctx) == old(CarryOf(ctx))
              && (out != null <==> old(CarryOf(ctx)) == [])
              && (out != null ==> fresh(out) && len == 0)
    ensures ctx == null || inp != [] ==>
              var r := Goal(ctx != null, old(CarryOf(ctx)), inp);
              && (out != null <==> r.ok)
              && (r.ok ==> fresh(out) && Wrote(out, len, 3 * (|inp| / 4) + 2, r.bytes))
              && (r.ok && ctx != null ==> CarryOf(ctx) == r.rest)
              && (r.ok && (ctx == null || |old(CarryOf(ctx))| + |inp| % 4 < 4) ==> out[..len] == r.bytes)
  {
    NeedLenSuffices(|CarryOf(ctx)|, |inp|);
    StrictLength(inp);
    ghost var r := Goal(ctx != null, CarryOf(ctx), inp);
    assert ctx == null || |CarryOf(ctx)| + |inp| % 4 < 4 ==> |r.bytes| <= NeedLen(|inp|);
    NothingDecoded();
    hide Goal, DecodeBlock;
    var needlen := NeedLen(|inp|);
    out := new Byte[needlen];
    var ok;
    ok, len := DecodeCtx(ctx, inp, out, needlen);
    if !ok {
      return null, len;
    }
  }

  lemma NothingDecoded()
    ensures DecodeBlock([]).bytes == []
  {
  }

  /** One chunk into a buffer of its own; an empty chunk is the flush. */
  method DecodeChunk(ctx: Context, chunk: seq<Byte>) returns (ok: bool, bytes: seq<Byte>)
    requires ctx.Valid()
    modifies ctx, ctx.buf
    ensures ctx.Valid()
    ensures chunk == [] ==> (ok <==> old(ctx.Carry()) == []) && bytes == DecodeBlock(old(ctx.Carry())).bytes
    ensures chunk != [] ==> var r := Goal(true, old(ctx.Carry()), chunk);
                            ok == r.ok && bytes == r.bytes && (ok ==> ctx.Carry() == r.rest)
  {
    ChunkLength(ctx.Carry(), chunk);
    hide Goal, DecodeBlock;
    var size := NeedLen(|chunk|) + 1;
    var out, n := new Byte[size], 0;
    ok, n := DecodeCtx(ctx, chunk, out, size);
    bytes := out[..n];
  }

  /** A reader that hands its input over chunk by chunk and flushes at the end, the way the comment
      before base64_decode_ctx prescribes: the outcome depends on the whole text only. */
  method DecodeInChunks(chunks: seq<seq<Byte>>) returns (ok: bool, bytes: seq<Byte>)
    requires forall k :: 0 <= k < |chunks| ==> chunks[k] != []
    ensures var text := DropNewlines(Flat(chunks));
            var r := DecodeGroups(text);
            && (ok <==> r.ok && |text| % 4 == 0)
            && bytes == r.bytes + (if r.ok then DecodeBlock(r.rest).bytes else [])
  {
    ChunkInvariance([], chunks);
    CarryLength(DropNewlines(Flat(chunks)));
    EmptyLeft(DropNewlines(Flat(chunks)));
    hide DropNewlines, DecodeGroups, DecodeBlock;
    ghost var all := Goal(true, [], Flat(chunks));
    var ctx := new Context();
    bytes := [];
    assert chunks[0..] == chunks;
    EmptyLeft(all.bytes);
    for c := 0 to |chunks|
      invariant ctx.Valid() && fresh(ctx) && fresh(ctx.buf)
      invariant all == Prepend(bytes, Feed(ctx.Carry(), chunks[c..]))
    {
      ghost var r := Goal(true, ctx.Carry(), chunks[c]);
      var good, piece := DecodeChunk(ctx, chunks[c]);
      assert chunks[c..][1..] == chunks[c + 1..];
      PrependTwice(bytes, r.bytes, Feed(r.rest, chunks[c + 1..]));
      bytes := bytes + piece;
      if !good {
        EmptyRight(bytes);
        return false, bytes;
      }
    }
    EmptyRight(bytes);
    var tail;
    ok, tail := DecodeChunk(ctx, []);
    bytes := bytes + tail;
  }

  /** clear_garbage: the buffer's first `n` characters are compacted in place and NUL-terminated. */
  method ClearGarbage(inbuf: array<Byte>, n: nat) returns (m: nat)
    requires n < inbuf.Length
    modifies inbuf
    ensures m == |Clean(old(inbuf[..n]))|
    ensures inbuf[..m] == Clean(old(inbuf[..n])) && inbuf[m] == 0
  {
    var i := 0;
    m := n;
    ghost var all := Clean(inbuf[..n]);
    while m > 0 && i < m
      invariant i <= m <= n
      invariant all == inbuf[..i] + Clean(inbuf[i..m])
      decreases m - i
    {
      ghost var head, tail := inbuf[..i], inbuf[i..m];
      if !IsGarbage(inbuf[i]) {
        Assoc(head, [inbuf[i]], Clean(tail[1..]));
        assert tail[1..] == inbuf[i + 1..m] && inbuf[..i + 1] == head + [inbuf[i]];
        i := i + 1;
      } else {
        m := m - 1;
        forall k | i <= k < m {
          inbuf[k] := inbuf[k + 1];
        }
        assert inbuf[i..m] == tail[1..] && inbuf[..i] == head;
        EmptyLeft(Clean(tail[1..]));
      }
    }
    EmptyRight(inbuf[..i]);
    inbuf[m] := 0;
  }
}
