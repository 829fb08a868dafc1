/** Whole-stream mode (internal/encrypt/stream.go). Encryption draws an IV,
    sends it through a base64 encoder and then sends every chunk read from
    the input, XORed with one keystream that spans all chunks; the writer
    receives `base64(IV ‖ C)`. Decryption base64-decodes the input, takes the
    first 16 decoded bytes as the IV and writes the rest XORed with the
    keystream. */
module StreamCodec {
  import opened Bytes
  import opened Results
  import opened Cipher
  import opened Io
  import opened EncryptorTypes
  import Base64
  import LineCodec

  /** The bytes a stream function handed on, and its error. For encryption
      these are the bytes given to the base64 encoder (IV first); for
      decryption the bytes written. */
  datatype StreamResult = StreamResult(sent: seq<byte>, err: Option<Error>)

  /** Why the read/XOR/write loop stopped. */
  datatype Stop = Finished | WriteFailed | ReadFailed

  /** The bytes the loop wrote and why it stopped. */
  datatype Pass = Pass(sent: seq<byte>, stop: Stop)

  /** The read/XOR/write loop both directions share, from read `i` on:
      each non-empty read is XORed with the next stretch of keystream and
      written with write call `call`; the loop stops at the first failed
      write, or once the reader has ended, cleanly or not. */
  function XorChunks(ks: Keystream, key: seq<byte>, iv: seq<byte>, chunks: seq<seq<byte>>, i: nat, end: End,
                     accepts: Sink, call: nat, offset: nat): (p: Pass)
    requires i <= |chunks|
    ensures p.stop == ReadFailed ==> end == Fail
    ensures p.stop == Finished ==> end == Eof
    ensures p.stop == WriteFailed ==> exists c :: call <= c && !accepts(c)
    decreases |chunks| - i
  {
    if i == |chunks| then Pass([], if end == Eof then Finished else ReadFailed)
    else if |chunks[i]| == 0 then
      XorChunks(ks, key, iv, chunks, i + 1, end, accepts, call, offset)
    else if !accepts(call) then Pass([], WriteFailed)
    else
      var rest := XorChunks(ks, key, iv, chunks, i + 1, end, accepts, call + 1, offset + |chunks[i]|);
      Pass(Xor(ks, key, iv, offset, chunks[i]) + rest.sent, rest.stop)
  }

  /** The input from read `i` on. */
  lemma FlattenFrom(chunks: seq<seq<byte>>, i: nat)
    requires i < |chunks|
    ensures Flatten(chunks[i..]) == chunks[i] + Flatten(chunks[i + 1..])
  {
    assert chunks[i..][0] == chunks[i] && chunks[i..][1..] == chunks[i + 1..];
  }

  /** A prefix reaching past `a` keeps all of `a`. */
  lemma TakeAppend(a: seq<byte>, b: seq<byte>, k: nat)
    requires k <= |b|
    ensures (a + b)[..|a| + k] == a + b[..k]
  {
  }

  /** One written chunk in front of a written prefix of the rest is a
      written prefix of the whole. */
  lemma PrefixStep(ks: Keystream, key: seq<byte>, iv: seq<byte>, offset: nat, head: seq<byte>, tail: seq<byte>,
                   rest: seq<byte>)
    requires |rest| <= |tail| && rest == Xor(ks, key, iv, offset + |head|, tail[..|rest|])
    ensures |head| + |rest| <= |head + tail|
    ensures Xor(ks, key, iv, offset, head) + rest == Xor(ks, key, iv, offset, (head + tail)[..|head| + |rest|])
  {
    XorAppend(ks, key, iv, offset, head, tail[..|rest|]);
    TakeAppend(head, tail, |rest|);
  }

  /** What the loop writes is always a prefix of the unread input XORed
      with the same stretch of keystream. */
  lemma {:induction false} XorChunksPrefix(ks: Keystream, key: seq<byte>, iv: seq<byte>, chunks: seq<seq<byte>>, i: nat,
                                           end: End, accepts: Sink, call: nat, offset: nat)
    requires i <= |chunks|
    ensures var p := XorChunks(ks, key, iv, chunks, i, end, accepts, call, offset);
      |p.sent| <= |Flatten(chunks[i..])| && p.sent == Xor(ks, key, iv, offset, Flatten(chunks[i..])[..|p.sent|])
    decreases |chunks| - i
  {
    var p := XorChunks(ks, key, iv, chunks, i, end, accepts, call, offset);
    if i < |chunks| {
      FlattenFrom(chunks, i);
      var tail := Flatten(chunks[i + 1..]);
      if |chunks[i]| == 0 {
        XorChunksPrefix(ks, key, iv, chunks, i + 1, end, accepts, call, offset);
        assert chunks[i] + tail == tail;
      } else if accepts(call) {
        var rest := XorChunks(ks, key, iv, chunks, i + 1, end, accepts, call + 1, offset + |chunks[i]|);
        XorChunksPrefix(ks, key, iv, chunks, i + 1, end, accepts, call + 1, offset + |chunks[i]|);
        PrefixStep(ks, key, iv, offset, chunks[i], tail, rest.sent);
        assert p.sent == Xor(ks, key, iv, offset, chunks[i]) + rest.sent;
      } else {
        assert p.sent == [];
      }
    } else {
      assert chunks[i..] == [];
    }
  }

  /** Unless a write failed, the loop wrote all of the unread input XORed
      with the keystream, and it finished exactly when the reader ended
      cleanly. */
  lemma {:induction false} XorChunksComplete(ks: Keystream, key: seq<byte>, iv: seq<byte>, chunks: seq<seq<byte>>, i: nat,
                                             end: End, accepts: Sink, call: nat, offset: nat)
    requires i <= |chunks|
    ensures var p := XorChunks(ks, key, iv, chunks, i, end, accepts, call, offset);
      p.stop != WriteFailed ==> p.sent == Xor(ks, key, iv, offset, Flatten(chunks[i..]))
    ensures var p := XorChunks(ks, key, iv, chunks, i, end, accepts, call, offset);
      p.stop == Finished <==> end == Eof && p.stop != WriteFailed
    decreases |chunks| - i
  {
    if i < |chunks| {
      FlattenFrom(chunks, i);
      if |chunks[i]| == 0 {
        XorChunksComplete(ks, key, iv, chunks, i + 1, end, accepts, call, offset);
      } else if accepts(call) {
        XorChunksComplete(ks, key, iv, chunks, i + 1, end, accepts, call + 1, offset + |chunks[i]|);
        XorAppend(ks, key, iv, offset, chunks[i], Flatten(chunks[i + 1..]));
      }
    } else {
      assert chunks[i..] == [];
    }
  }

  /** When every write from `call` on succeeds, the loop writes all of the
      unread input XORed with the keystream, and stops on a read failure
      exactly when the reader ends in one. */
  lemma {:induction false} XorChunksAllWritten(ks: Keystream, key: seq<byte>, iv: seq<byte>, chunks: seq<seq<byte>>, i: nat,
                                               end: End, accepts: Sink, call: nat, offset: nat)
    requires i <= |chunks|
    requires forall c | call <= c :: accepts(c)
    ensures XorChunks(ks, key, iv, chunks, i, end, accepts, call, offset)
         == Pass(Xor(ks, key, iv, offset, Flatten(chunks[i..])), if end == Eof then Finished else ReadFailed)
    decreases |chunks| - i
  {
    if i < |chunks| {
      FlattenFrom(chunks, i);
      if |chunks[i]| == 0 {
        XorChunksAllWritten(ks, key, iv, chunks, i + 1, end, accepts, call, offset);
      } else {
        XorChunksAllWritten(ks, key, iv, chunks, i + 1, end, accepts, call + 1, offset + |chunks[i]|);
        XorAppend(ks, key, iv, offset, chunks[i], Flatten(chunks[i + 1..]));
      }
    } else {
      assert chunks[i..] == [];
    }
  }

  /** The loop's invariant: what was written, followed by what the reads
      from `i` on will give, is the whole result. */
  ghost predicate LoopInvariant(whole: Pass, sent: seq<byte>, ks: Keystream, key: seq<byte>, iv: seq<byte>,
                                chunks: seq<seq<byte>>, i: nat, end: End, accepts: Sink, call: nat, offset: nat)
    requires i <= |chunks|
  {
    var rest := XorChunks(ks, key, iv, chunks, i, end, accepts, call, offset);
    whole.sent == sent + rest.sent && whole.stop == rest.stop
  }

  /** Writing a non-empty chunk keeps the invariant. */
  lemma LoopWrites(whole: Pass, sent: seq<byte>, ks: Keystream, key: seq<byte>, iv: seq<byte>,
                   chunks: seq<seq<byte>>, i: nat, end: End, accepts: Sink, call: nat, offset: nat)
    requires i < |chunks| && |chunks[i]| > 0 && accepts(call)
    requires LoopInvariant(whole, sent, ks, key, iv, chunks, i, end, accepts, call, offset)
    ensures LoopInvariant(whole, sent + Xor(ks, key, iv, offset, chunks[i]), ks, key, iv,
                          chunks, i + 1, end, accepts, call + 1, offset + |chunks[i]|)
  {
    var encrypted := Xor(ks, key, iv, offset, chunks[i]);
    var rest := XorChunks(ks, key, iv, chunks, i + 1, end, accepts, call + 1, offset + |chunks[i]|);
    assert sent + (encrypted + rest.sent) == (sent + encrypted) + rest.sent;
  }

  /** The loop as the source writes it: one read per iteration, the chunk
      XORed at the running offset into the keystream, then written; stop at
      end of input, on a read error or on a write error. Its invariant: the
      offset is the number of bytes read so far, and the bytes written are
      exactly those bytes XORed with the keystream from position 0. */
  method XorLoop(ks: Keystream, key: seq<byte>, iv: seq<byte>, chunks: seq<seq<byte>>, end: End,
                 accepts: Sink, call0: nat)
    returns (sent: seq<byte>, stop: Stop)
    ensures Pass(sent, stop) == XorChunks(ks, key, iv, chunks, 0, end, accepts, call0, 0)
    ensures |sent| <= |Flatten(chunks)| && sent == Xor(ks, key, iv, 0, Flatten(chunks)[..|sent|])
    ensures stop != WriteFailed ==> sent == Xor(ks, key, iv, 0, Flatten(chunks))
  {
    assert chunks[0..] == chunks;
    ghost var whole := XorChunks(ks, key, iv, chunks, 0, end, accepts, call0, 0);
    sent := [];
    var i: nat, call: nat, offset: nat := 0, call0, 0;
    while i < |chunks|
      invariant i <= |chunks|
      invariant LoopInvariant(whole, sent, ks, key, iv, chunks, i, end, accepts, call, offset)
      invariant offset == |Flatten(chunks[..i])|
      invariant sent == Xor(ks, key, iv, 0, Flatten(chunks[..i]))
    {
      var chunk := chunks[i];
      FlattenSnoc(chunks, i);
      XorAppend(ks, key, iv, 0, Flatten(chunks[..i]), chunk);
      if |chunk| > 0 {
        var encrypted := Xor(ks, key, iv, offset, chunk);
        if !accepts(call) {
          ConsumedPrefix(chunks, i);
          stop := WriteFailed;
          return;
        }
        LoopWrites(whole, sent, ks, key, iv, chunks, i, end, accepts, call, offset);
        sent := sent + encrypted;
        call := call + 1;
      }
      offset := offset + |chunk|;
      i := i + 1;
    }
    assert chunks[..i] == chunks;
    stop := if end == Eof then Finished else ReadFailed;
  }

  /** The reads consumed so far are a prefix of the whole input. */
  lemma ConsumedPrefix(chunks: seq<seq<byte>>, i: nat)
    requires i <= |chunks|
    ensures |Flatten(chunks[..i])| <= |Flatten(chunks)|
    ensures Flatten(chunks)[..|Flatten(chunks[..i])|] == Flatten(chunks[..i])
  {
    FlattenAppend(chunks[..i], chunks[i..]);
    assert chunks[..i] + chunks[i..] == chunks;
  }

  /** The error a stream function reports for the way its loop stopped. */
  function StopError(stop: Stop, writeErr: Error, readErr: Error): Option<Error>
  {
    match stop
    case Finished => None
    case WriteFailed => Some(writeErr)
    case ReadFailed => Some(readErr)
  }

  /** `encryptStream`, as the bytes given to the base64 encoder: the cipher
      is created, the IV drawn and written, then the input is encrypted
      chunk by chunk. The encoder's write calls are numbered from 0, the IV
      being call 0. */
  function EncryptStream(e: Encryptor, draw: Option<Iv>, input: Reader, accepts: Sink): (r: StreamResult)
    ensures !ValidKeyLength(|e.key|) ==> r == StreamResult([], Some(CreatingCipher))
    ensures ValidKeyLength(|e.key|) && draw.None? ==> r == StreamResult([], Some(GeneratingIv))
    ensures ValidKeyLength(|e.key|) && draw.Some? && !accepts(0) ==> r == StreamResult([], Some(WritingIv))
    ensures r.err.None? ==> (draw.Some? && input.end == Eof &&
                             r.sent == draw.value + Xor(e.keystream, e.key, draw.value, 0, Contents(input)))
    ensures r.err.None? ==> |r.sent| == BlockSize + |Contents(input)|
    ensures |r.sent| > 0 ==> (draw.Some? && BlockSize <= |r.sent| <= BlockSize + |Contents(input)| &&
                              r.sent[..BlockSize] == draw.value &&
                              r.sent[BlockSize..] == Xor(e.keystream, e.key, draw.value, 0, Contents(input)[..|r.sent| - BlockSize]))
    ensures input.end == Fail ==> r.err.Some?
    ensures r.err == Some(ReadingData) ==> input.end == Fail
    ensures r.err == Some(WritingEncryptedData) ==> exists c :: 1 <= c && !accepts(c)
    ensures ValidKeyLength(|e.key|) && draw.Some? && (forall c :: accepts(c)) ==>
      r.err == (if input.end == Fail then Some(ReadingData) else None)
  {
    if !ValidKeyLength(|e.key|) then StreamResult([], Some(CreatingCipher))
    else if draw.None? then StreamResult([], Some(GeneratingIv))
    else if !accepts(0) then StreamResult([], Some(WritingIv))
    else
      var iv := draw.value;
      var body := XorChunks(e.keystream, e.key, iv, input.chunks, 0, input.end, accepts, 1, 0);
      XorChunksPrefix(e.keystream, e.key, iv, input.chunks, 0, input.end, accepts, 1, 0);
      XorChunksComplete(e.keystream, e.key, iv, input.chunks, 0, input.end, accepts, 1, 0);
      assert input.chunks[0..] == input.chunks;
      assert (iv + body.sent)[..BlockSize] == iv && (iv + body.sent)[BlockSize..] == body.sent;
      StreamResult(iv + body.sent, StopError(body.stop, WritingEncryptedData, ReadingData))
  }

  /** With a valid key, an IV, a reader that ends cleanly and a writer that
      takes every write, `encryptStream` succeeds. */
  lemma EncryptStreamSucceeds(e: Encryptor, iv: Iv, input: Reader, accepts: Sink)
    requires ValidKeyLength(|e.key|) && input.end == Eof
    requires forall c :: accepts(c)
    ensures EncryptStream(e, Some(iv), input, accepts).err.None?
  {
    XorChunksAllWritten(e.keystream, e.key, iv, input.chunks, 0, input.end, accepts, 1, 0);
  }

  /** What the writer holds after a successful `encryptStream`: the deferred
      `Close` flushes the encoder, so it is the base64 text of all bytes
      sent. */
  function EncryptedText(r: StreamResult): seq<byte>
  {
    Base64.Encode(r.sent)
  }

  /** One CFB session spans all chunks, so with writes that succeed the
      result does not depend on how the reads split the input. */
  lemma EncryptStreamIgnoresChunking(e: Encryptor, draw: Option<Iv>, r1: Reader, r2: Reader, accepts: Sink)
    requires Contents(r1) == Contents(r2) && r1.end == r2.end
    requires forall c :: accepts(c)
    ensures EncryptStream(e, draw, r1, accepts) == EncryptStream(e, draw, r2, accepts)
  {
    if ValidKeyLength(|e.key|) && draw.Some? {
      var iv := draw.value;
      XorChunksAllWritten(e.keystream, e.key, iv, r1.chunks, 0, r1.end, accepts, 1, 0);
      XorChunksAllWritten(e.keystream, e.key, iv, r2.chunks, 0, r2.end, accepts, 1, 0);
      assert r1.chunks[0..] == r1.chunks && r2.chunks[0..] == r2.chunks;
    }
  }

  /** The whole-stream frame is the frame `encryptBytes` builds for the same
      data and IV, so the writer's text is what `encryptData` returns. */
  lemma StreamMatchesLineFrame(e: Encryptor, draw: Option<Iv>, input: Reader, accepts: Sink)
    requires !e.policy.Deterministic?
    requires EncryptStream(e, draw, input, accepts).err.None?
    ensures LineCodec.EncryptBytes(e, Contents(input), draw) == Ok(EncryptStream(e, draw, input, accepts).sent)
    ensures LineCodec.EncryptData(e, Contents(input), draw) == Ok(EncryptedText(EncryptStream(e, draw, input, accepts)))
  {
  }

  /** `base64.NewDecoder` around the input, as the reads it returns: the
      bytes of the well-formed quanta, then end of input if the text was
      complete and well formed, an error otherwise. */
  function DecodeReader(text: Reader): (d: Reader)
    ensures d.end == Eof <==> text.end == Eof && Base64.Decode(Contents(text)).Some?
    ensures d.end == Eof ==> Contents(d) == Base64.Decode(Contents(text)).value
  {
    var q := Base64.DecodeQuanta(Base64.StripNewlines(Contents(text)));
    assert Flatten([q.data]) == q.data + Flatten([]);
    Reader([q.data], if q.complete && text.end == Eof then Eof else Fail)
  }

  /** `decryptStream`: the IV is read through the decoder before the cipher
      is created; fewer than 16 decoded bytes fail with "reading IV" before
      anything is written. The writer's write calls are numbered from 0. */
  function DecryptStream(e: Encryptor, input: Reader, accepts: Sink): (r: StreamResult)
    ensures |Contents(DecodeReader(input))| < BlockSize ==> r == StreamResult([], Some(ReadingIv))
    ensures |Contents(DecodeReader(input))| >= BlockSize && !ValidKeyLength(|e.key|) ==> r == StreamResult([], Some(CreatingCipher))
    ensures r.err.None? ==> input.end == Eof && Base64.Decode(Contents(input)).Some?
    ensures r.err.None? ==> var frame := Base64.Decode(Contents(input)).value;
      |frame| >= BlockSize && r.sent == Xor(e.keystream, e.key, frame[..BlockSize], 0, frame[BlockSize..])
    ensures r.err.Some? ==> r.err.value in {ReadingIv, CreatingCipher, WritingDecryptedData, ReadingEncryptedData}
    ensures r.err == Some(ReadingEncryptedData) ==> DecodeReader(input).end == Fail
    ensures r.err == Some(WritingDecryptedData) ==> exists c :: !accepts(c)
    ensures |Contents(DecodeReader(input))| >= BlockSize && ValidKeyLength(|e.key|) && (forall c :: accepts(c)) ==>
      r.err == (if DecodeReader(input).end == Fail then Some(ReadingEncryptedData) else None)
  {
    var decoded := DecodeReader(input);
    var data := Contents(decoded);
    if |data| < BlockSize then StreamResult([], Some(ReadingIv))
    else if !ValidKeyLength(|e.key|) then StreamResult([], Some(CreatingCipher))
    else
      var body := DropPrefix(decoded.chunks, BlockSize);
      XorChunksComplete(e.keystream, e.key, data[..BlockSize], body, 0, decoded.end, accepts, 0, 0);
      assert body[0..] == body;
      var p := XorChunks(e.keystream, e.key, data[..BlockSize], body, 0, decoded.end, accepts, 0, 0);
      StreamResult(p.sent, StopError(p.stop, WritingDecryptedData, ReadingEncryptedData))
  }

  /** Decrypting the text `encryptStream` wrote, however it is split into
      reads, gives back exactly the input, when the writes succeed. */
  lemma StreamRoundTrip(enc: Encryptor, dec: Encryptor, draw: Option<Iv>, plain: Reader, accEnc: Sink,
                        text: Reader, accDec: Sink)
    requires EncryptStream(enc, draw, plain, accEnc).err.None?
    requires dec.key == enc.key && dec.keystream == enc.keystream
    requires Contents(text) == EncryptedText(EncryptStream(enc, draw, plain, accEnc)) && text.end == Eof
    requires forall c :: accDec(c)
    ensures DecryptStream(dec, text, accDec) == StreamResult(Contents(plain), None)
  {
    var frame := EncryptStream(enc, draw, plain, accEnc).sent;
    Base64.DecodeEncode(frame);
    var iv := draw.value;
    assert frame[..BlockSize] == iv;
    assert frame[BlockSize..] == Xor(enc.keystream, enc.key, iv, 0, Contents(plain));
    XorInvolution(enc.keystream, enc.key, iv, 0, Contents(plain));
    var decoded := DecodeReader(text);
    assert Contents(decoded) == frame;
    XorChunksAllWritten(dec.keystream, dec.key, iv, DropPrefix(decoded.chunks, BlockSize), 0, decoded.end, accDec, 0, 0);
    assert DropPrefix(decoded.chunks, BlockSize)[0..] == DropPrefix(decoded.chunks, BlockSize);
  }
}
