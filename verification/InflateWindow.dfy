/** The decompression stream (`mz_inflate`): the decoder writes into a circular window, and the caller
    gets the bytes from there, in pieces of any sizes. */
module InflateWindow {
  import opened Bits
  import opened DeflateFormat
  import opened InflateDecoder

  datatype Flush = NoFlush | PartialFlush | SyncFlush | FullFlush | Finish | Block

  datatype Code = Ok | StreamEnd | BufError | DataError | StreamError

  class Stream {
    const decoder: Decoder
    const dict: array<byte>
    var dictOfs: nat
    var dictAvail: nat
    var lastStatus: Status
    var firstCall: bool
    var hasFlushed: bool
    ghost var delivered: seq<byte>    // everything the caller has got so far

    constructor (decoder: Decoder)
      requires decoder.Valid() && decoder.fed == decoder.output == [] && !decoder.finished
      ensures Valid() && this.decoder == decoder && fresh(dict) && delivered == []
      ensures firstCall && lastStatus == NeedsMoreInput && !hasFlushed
    {
      this.decoder := decoder;
      dict := new byte[DICT_SIZE](_ => 0);
      dictOfs, dictAvail, lastStatus, firstCall, hasFlushed := 0, 0, NeedsMoreInput, true, false;
      delivered := [];
    }

    ghost predicate Valid()
      reads this, decoder, dict
    {
      && Placed() && decoder.Valid()
      && (firstCall ==> decoder.fed == decoder.output == [] && !decoder.finished)
      && (lastStatus == Done <==> decoder.finished)
      && (InWindow() || lastStatus == Failed || Finished())
    }

    ghost predicate Placed()
      reads this, decoder
    {
      && dict.Length == DICT_SIZE && dictOfs + dictAvail <= DICT_SIZE && dictOfs < DICT_SIZE
      && |delivered| + dictAvail == |decoder.output|
      && delivered == decoder.output[..|delivered|]
    }

    /** The window is in step with the output. */
    ghost predicate InWindow()
      reads this, decoder, dict
    {
      dictOfs == Slot(|delivered|) && Window(dict[..], decoder.output, |decoder.output|)
    }

    /** Everything has gone to the caller. */
    ghost predicate Finished()
      reads this, decoder
    {
      decoder.finished && dictAvail == 0
    }

    /** What the decoder has produced but the caller has not yet got. */
    ghost function Pending(): (p: seq<byte>)
      requires dictOfs + dictAvail <= dict.Length
      reads this, dict
    {
      dict[dictOfs..dictOfs + dictAvail]
    }

    /** What was delivered and what waits in the window make up exactly what the decoder has produced. */
    lemma NothingLost()
      requires Valid() && lastStatus != Failed
      ensures delivered + Pending() == decoder.output
    {
      if !Finished() {
        ReadWindow(dict[..], decoder.output, |delivered|, dictAvail, |decoder.output|);
        assert Pending() == dict[..][dictOfs..dictOfs + dictAvail];
      }
    }

    /** Hands the caller as many of the waiting bytes as fit. */
    method Deliver(availOut: nat) returns (out: seq<byte>)
      requires Placed() && (InWindow() || Finished())
      modifies this`dictOfs, this`dictAvail, this`delivered
      ensures Placed() && (InWindow() || Finished())
      ensures delivered == old(delivered) + out
      ensures |out| == Min(old(dictAvail), availOut) && dictAvail == old(dictAvail) - |out|
    {
      var n := Min(dictAvail, availOut);
      if n > 0 { ReadWindow(dict[..], decoder.output, |delivered|, n, |decoder.output|); }
      out := dict[dictOfs..dictOfs + n];
      assert out == dict[..][dictOfs..dictOfs + n];
      NextSlot(|delivered|, n);
      delivered := delivered + out;
      dictAvail := dictAvail - n;
      dictOfs := (dictOfs + n) % DICT_SIZE;
    }

    /** Runs the decoder on an empty window, and hands over what it puts out. */
    method Advance(input: seq<byte>, availOut: nat, more: bool) returns (used: nat, out: seq<byte>)
      requires Valid() && lastStatus != Failed && dictAvail == 0 && decoder.CanTake(input)
      modifies this`dictOfs, this`dictAvail, this`lastStatus, this`firstCall, this`delivered, decoder, dict
      ensures Valid() && !firstCall && (InWindow() || Finished()) && (lastStatus == Done <==> decoder.finished)
      ensures delivered == old(delivered) + out && used <= |input| && |out| <= availOut
      ensures decoder.fed == old(decoder.fed) + input[..used] && old(decoder.output) <= decoder.output
      ensures dictAvail > 0 ==> |out| == availOut
      ensures old(decoder.finished) ==> lastStatus == Done && decoder.output == old(decoder.output)
      ensures lastStatus == NeedsMoreInput ==> used == |input| && more
      ensures lastStatus == HasMoreOutput ==> dictAvail + |out| > 0
      ensures decoder.live && lastStatus == Failed ==> !more && |decoder.fed| < |decoder.stream|
      ensures decoder.live && lastStatus == NeedsMoreInput ==> decoder.HasWhole(|decoder.fed|, decoder.output)
      ensures decoder.live && |decoder.stream| <= |old(decoder.fed)| + |input| ==>
        lastStatus == Done || lastStatus == HasMoreOutput
    {
      ghost var before := decoder.output;
      ghost var was := dict[..];
      var produced: nat;
      firstCall := false;
      hide Window, Slot, Decoder.Valid, Decoder.CanTake, Decoder.HasWhole;
      used, produced, lastStatus := decoder.Decompress(input, dict, dictOfs, more);
      dictAvail := produced;
      if InWindowAt(was, before) {
        WindowGrows(was, before, decoder.output);
        WriteWindow(was, dictOfs, decoder.output, |before|, produced);
      }
      hide Written;
      out := Deliver(availOut);
    }

    ghost predicate InWindowAt(was: seq<byte>, output: seq<byte>)
      reads this`dictOfs
    {
      dictOfs == Slot(|output|) && Window(was, output, |output|)
    }

    static predicate Wrong(flush: Flush) { flush == FullFlush || flush == Flush.Block }

    /** One call. Over any calls with any inputs and any room, the caller gets the decoder's output, in
        order, and bytes wait in the window only if there was no room for them. On a valid stream that is
        what its blocks mean, and the end is reported by just the call that delivers the last byte, or finds that
        there is none left; it is never called corrupt unless the caller says that there is no more of it
        too soon, once all of it is there every call with some room moves on, and more input is asked for
        only when all blocks supplied to their ends have been delivered. */
    method Inflate(input: seq<byte>, availOut: nat, flush: Flush) returns (code: Code, used: nat, out: seq<byte>)
      requires Valid() && decoder.CanTake(input)
      modifies this, decoder, dict
      ensures Valid() && used <= |input| && |out| <= availOut && decoder.fed == old(decoder.fed) + input[..used]
      ensures delivered == old(delivered) + out && delivered <= decoder.output && old(decoder.output) <= decoder.output
      ensures code == StreamEnd ==> delivered == decoder.output && decoder.finished && dictAvail == 0
      ensures code == Ok || code == BufError ==> !(decoder.finished && dictAvail == 0)
      ensures old(decoder.finished) ==> decoder.finished && decoder.output == old(decoder.output)
      ensures code == StreamError <==>
        Wrong(flush) || (old(lastStatus) != Failed && old(hasFlushed) && flush != Finish)
      ensures !Wrong(flush) && old(lastStatus) == Failed ==> code == DataError
      ensures code == StreamError || old(lastStatus) == Failed ==>
        used == 0 && out == [] && decoder.output == old(decoder.output) && lastStatus == old(lastStatus)
      ensures code == DataError ==> lastStatus == Failed
      ensures lastStatus == Failed && old(lastStatus) != Failed ==>
        code == DataError || (code == BufError && old(firstCall) && flush == Finish)
      ensures hasFlushed == (old(hasFlushed) || (flush == Finish && old(lastStatus) != Failed))
      ensures firstCall == (old(firstCall) && Wrong(flush))
      ensures old(dictAvail) > 0 && code != StreamError && code != DataError ==>
        used == 0 && |out| == Min(old(dictAvail), availOut) && decoder.output == old(decoder.output) && code != BufError
      ensures code != StreamError && code != DataError ==> dictAvail == 0 || |out| == availOut
      ensures code == Ok ==> old(dictAvail) > 0 || (flush != Finish && (used == |input| || |out| == availOut))
      ensures code == BufError ==>
        if flush == Finish then |out| == availOut else input == [] && lastStatus == NeedsMoreInput
      ensures decoder.live && lastStatus == Failed ==> flush == Finish || old(lastStatus) == Failed
      ensures decoder.live && code == DataError && old(lastStatus) != Failed ==>
        flush == Finish && |decoder.fed| < |decoder.stream|
      ensures decoder.live && |decoder.stream| <= |old(decoder.fed)| + |input| && availOut > 0 ==>
        code == StreamError || code == StreamEnd || old(lastStatus) == Failed || out != []
      ensures decoder.live && code == BufError && flush != Finish && |out| < availOut ==>
        decoder.HasWhole(|decoder.fed|, delivered)
      ensures code == Ok && input == [] && availOut > 0 ==> out != []
    {
      hide Window, Slot, Decoder.Valid, Decoder.CanTake, Decoder.HasWhole;
      used, out := 0, [];
      var flush := if flush == PartialFlush then SyncFlush else flush;
      if flush != NoFlush && flush != SyncFlush && flush != Finish {
        return StreamError, 0, [];
      }
      var first := firstCall;
      firstCall := false;
      if lastStatus == Failed {
        return DataError, 0, [];
      }
      if hasFlushed && flush != Finish {
        return StreamError, 0, [];
      }
      hasFlushed := hasFlushed || flush == Finish;
      hide *;
      code, used, out := Serve(input, availOut, flush, first);
    }

    /** A call that is not refused. */
    method Serve(input: seq<byte>, availOut: nat, flush: Flush, first: bool)
        returns (code: Code, used: nat, out: seq<byte>)
      requires Valid() && lastStatus != Failed && !firstCall && decoder.CanTake(input)
      requires first ==> decoder.fed == decoder.output == [] && !decoder.finished
      requires flush == NoFlush || flush == SyncFlush || flush == Finish
      modifies this, decoder, dict
      ensures Valid() && used <= |input| && |out| <= availOut && decoder.fed == old(decoder.fed) + input[..used]
      ensures delivered == old(delivered) + out && delivered <= decoder.output && old(decoder.output) <= decoder.output
      ensures hasFlushed == old(hasFlushed) && !firstCall && code != StreamError
      ensures code == StreamEnd ==> delivered == decoder.output && decoder.finished && dictAvail == 0
      ensures code == Ok || code == BufError ==> !(decoder.finished && dictAvail == 0)
      ensures old(decoder.finished) ==> decoder.finished && decoder.output == old(decoder.output)
      ensures code == DataError ==> lastStatus == Failed
      ensures lastStatus == Failed ==> code == DataError || (code == BufError && first && flush == Finish)
      ensures old(dictAvail) > 0 && code != DataError ==>
        used == 0 && |out| == Min(old(dictAvail), availOut) && decoder.output == old(decoder.output) && code != BufError
      ensures code != DataError ==> dictAvail == 0 || |out| == availOut
      ensures code == Ok ==> old(dictAvail) > 0 || (flush != Finish && (used == |input| || |out| == availOut))
      ensures code == BufError ==>
        if flush == Finish then |out| == availOut else input == [] && lastStatus == NeedsMoreInput
      ensures decoder.live && lastStatus == Failed ==> flush == Finish
      ensures decoder.live && code == DataError ==> flush == Finish && |decoder.fed| < |decoder.stream|
      ensures decoder.live && |decoder.stream| <= |old(decoder.fed)| + |input| && availOut > 0 ==>
        code == StreamEnd || out != []
      ensures decoder.live && code == BufError && flush != Finish && |out| < availOut ==>
        decoder.HasWhole(|decoder.fed|, delivered)
      ensures code == Ok && input == [] && availOut > 0 ==> out != []
    {
      hide Window, Slot, Decoder.Valid, Decoder.CanTake, Decoder.HasWhole, InWindow;
      used, out := 0, [];
      if flush == Finish && first {
        code, used, out := InflateDirectly(input, availOut);
        return;
      }
      if dictAvail > 0 {
        out := Deliver(availOut);
        code := if lastStatus == Done && dictAvail == 0 then StreamEnd else Ok;
        return;
      }
      code, used, out := InflateLoop(input, availOut, flush);
    }

    /** `Finish` on the first call: the whole output is to go to the caller's buffer. */
    method InflateDirectly(input: seq<byte>, availOut: nat) returns (code: Code, used: nat, out: seq<byte>)
      requires Valid() && decoder.fed == decoder.output == [] && !decoder.finished && decoder.CanTake(input)
      requires !firstCall && lastStatus != Failed
      modifies this, decoder
      ensures Valid() && used <= |input| && |out| <= availOut && decoder.fed == input[..used]
      ensures hasFlushed == old(hasFlushed) && !firstCall
      ensures delivered == old(delivered) + out == decoder.output && dictAvail == 0
      ensures lastStatus == Done <==> decoder.finished
      ensures match code
        case StreamEnd => decoder.finished
        case BufError => !decoder.finished && |out| == availOut && lastStatus == Failed
        case DataError => !decoder.finished && lastStatus == Failed
        case _ => false
      ensures decoder.live && code == DataError ==> |decoder.fed| < |decoder.stream|
      ensures decoder.live && |decoder.stream| <= |input| && availOut > 0 ==> code == StreamEnd || out != []
    {
      hide Decoder.Valid, Decoder.CanTake;
      used, out, lastStatus := decoder.DecompressAll(input, availOut);
      delivered := delivered + out;
      if lastStatus == Failed {
        code := DataError;
      } else if lastStatus != Done {
        lastStatus := Failed;
        code := BufError;
      } else {
        code := StreamEnd;
      }
    }

    /** The loop on the window. The decoder is entered only when nothing waits there. */
    method InflateLoop(input: seq<byte>, availOut: nat, flush: Flush) returns (code: Code, used: nat, out: seq<byte>)
      requires Valid() && dictAvail == 0 && lastStatus != Failed && decoder.CanTake(input)
      requires flush == NoFlush || flush == SyncFlush || flush == Finish
      modifies this, decoder, dict
      ensures Valid() && used <= |input| && |out| <= availOut && decoder.fed == old(decoder.fed) + input[..used]
      ensures delivered == old(delivered) + out && old(decoder.output) <= decoder.output
      ensures hasFlushed == old(hasFlushed) && !firstCall
      ensures code == StreamEnd ==> delivered == decoder.output && dictAvail == 0 && decoder.finished
      ensures old(decoder.finished) ==> decoder.finished && decoder.output == old(decoder.output)
      ensures code != DataError && dictAvail > 0 ==> |out| == availOut
      ensures code == Ok || code == StreamEnd || code == BufError || code == DataError
      ensures lastStatus == Failed <==> code == DataError
      ensures code == Ok || code == BufError ==> !(decoder.finished && dictAvail == 0)
      ensures code == Ok ==> flush != Finish && (used == |input| || |out| == availOut)
      ensures code == BufError ==>
        if flush == Finish then |out| == availOut else input == [] && lastStatus == NeedsMoreInput
      ensures decoder.live && code == DataError ==> flush == Finish && |decoder.fed| < |decoder.stream|
      ensures decoder.live && |decoder.stream| <= |old(decoder.fed)| + |input| && availOut > 0 ==>
        code == StreamEnd || out != []
      ensures decoder.live && code == BufError && flush != Finish ==> decoder.HasWhole(|decoder.fed|, decoder.output)
      ensures dictAvail == 0 ==> delivered == decoder.output
      ensures code == Ok && input == [] && availOut > 0 ==> out != []
    {
      hide Window, Slot, Decoder.Valid, Decoder.CanTake, Decoder.HasWhole, InWindow;
      used, out := 0, [];
      assert input[0..] == input;
      SourceOf(input);
      while true
        invariant Valid() && dictAvail == 0 && lastStatus != Failed && hasFlushed == old(hasFlushed)
        invariant used <= |input| && |out| <= availOut && delivered == old(delivered) + out
        invariant decoder.fed == old(decoder.fed) + input[..used] && decoder.CanTake(input[used..])
        invariant old(decoder.output) <= decoder.output
        invariant old(decoder.finished) ==> decoder.finished && decoder.output == old(decoder.output)
        decreases availOut - |out|
      {
        var u, o := Advance(input[used..], availOut - |out|, flush != Finish);
        TakeRest(old(decoder.fed), input, used, u);
        used, out := used + u, out + o;
        if lastStatus == Failed {
          return DataError, used, out;
        } else if lastStatus == NeedsMoreInput && |input| == 0 {
          return BufError, used, out;
        } else if flush == Finish {
          if lastStatus == Done {
            code := if dictAvail > 0 then BufError else StreamEnd;
            return;
          } else {
            assert lastStatus == HasMoreOutput;
            if |out| == availOut { return BufError, used, out; }
          }
        } else if lastStatus == Done || used == |input| || |out| == availOut || dictAvail > 0 {
          break;
        }
      }
      code := if lastStatus == Done && dictAvail == 0 then StreamEnd else Ok;
    }

    lemma SourceOf(input: seq<byte>)
      requires decoder.CanTake(input)
      ensures decoder.live ==> decoder.fed + input <= decoder.source
    {
    }

    lemma TakeRest(fed: seq<byte>, input: seq<byte>, used: nat, u: nat)
      requires used + u <= |input| && decoder.fed == fed + input[..used] + input[used..][..u]
      requires decoder.live ==> fed + input <= decoder.source
      ensures decoder.fed == fed + input[..used + u] && decoder.CanTake(input[used + u..])
    {
      assert input[..used] + input[used..][..u] == input[..used + u];
      assert input[..used + u] + input[used + u..] == input;
    }
  }

  /** One call of `Inflate`: how much input the caller offers, how much room, and the flush mode. */
  datatype Call = Call(avail: nat, room: nat, flush: Flush)

  function Concat(parts: seq<seq<byte>>): seq<byte> {
    if parts == [] then [] else Concat(parts[..|parts| - 1]) + parts[|parts| - 1]
  }

  /** Each call offers all the input that is left, and some room, and does not ask for the end. */
  ghost predicate Keen(calls: seq<Call>, n: nat) {
    forall i :: 0 <= i < |calls| ==>
      calls[i].avail >= n && calls[i].room > 0 &&
      (calls[i].flush == NoFlush || calls[i].flush == PartialFlush || calls[i].flush == SyncFlush)
  }

  /** Any run of calls on a new stream, which offer the bytes of `data` one after the other: the pieces, put
      together, are a prefix of the output, and they are all of it as soon as one call says that the stream
      has ended. On a valid stream that is what its blocks mean; and if the calls are keen, the end is
      reported after as many calls as it has bytes of output and one more. */
  method Calls(s: Stream, data: seq<byte>, calls: seq<Call>) returns (outs: seq<seq<byte>>, codes: seq<Code>)
    requires s.Valid() && s.delivered == [] && s.decoder.fed == [] && s.lastStatus != Failed && !s.hasFlushed
    requires s.decoder.live ==> data <= s.decoder.source
    modifies s, s.decoder, s.dict
    ensures |outs| == |codes| == |calls| && forall i :: 0 <= i < |calls| ==> |outs[i]| <= calls[i].room
    ensures s.Valid() && Concat(outs) <= s.decoder.output && s.decoder.fed <= data
    ensures StreamEnd in codes ==> s.decoder.finished && Concat(outs) == s.decoder.output
    ensures s.decoder.live && |s.decoder.stream| <= |data| && Keen(calls, |data|) && |calls| > |Concat(outs)| ==>
      StreamEnd in codes
    ensures s.decoder.live && Keen(calls, |data|) && |calls| > |Concat(outs)| + 1 ==>
      StreamEnd in codes || s.decoder.HasWhole(|data|, Concat(outs))
  {
    hide *;
    outs, codes := [], [];
    var pos: nat := 0;
    NoneCalled();
    for k := 0 to |calls|
      invariant s.Valid() && |outs| == |codes| == k && s.delivered == Concat(outs) <= s.decoder.output
      invariant StreamEnd in codes ==> s.decoder.finished && Concat(outs) == s.decoder.output
      invariant pos <= |data| && s.decoder.fed == data[..pos]
      invariant forall i :: 0 <= i < k ==> |outs[i]| <= calls[i].room
      invariant s.decoder.live && Keen(calls, |data|) ==> s.lastStatus != Failed && !s.hasFlushed
      invariant s.decoder.live && |s.decoder.stream| <= |data| && Keen(calls, |data|) ==>
        StreamEnd in codes || |s.delivered| >= k
      invariant s.decoder.live && Keen(calls, |data|) ==>
        StreamEnd in codes || s.decoder.HasWhole(|data|, Concat(outs)) ||
        |s.delivered| + (if pos == |data| then 1 else 0) >= k
    {
      var end: nat := Min(pos + calls[k].avail, |data|);
      CanOffer(s.decoder, data, pos, end);
      KeenCall(calls, |data|, k);
      var code, used, out := s.Inflate(data[pos..end], calls[k].room, calls[k].flush);
      assert data[..pos] + data[pos..end][..used] == data[..pos + used];
      pos := pos + used;
      ConcatOne(outs, out);
      StillWhole(s.decoder, |data|, Concat(outs), out);
      outs, codes := outs + [out], codes + [code];
    }
  }

  lemma StillWhole(d: Decoder, n: nat, all: seq<byte>, out: seq<byte>)
    ensures d.HasWhole(n, all) ==> d.HasWhole(n, all + out)
  {
    if d.HasWhole(n, all) { d.HasMore(n, all, all + out); }
  }

  lemma NoneCalled()
    ensures Concat([]) == []
  {
  }

  lemma ConcatOne(outs: seq<seq<byte>>, out: seq<byte>)
    ensures Concat(outs + [out]) == Concat(outs) + out
  {
    assert (outs + [out])[..|outs|] == outs;
  }

  lemma CanOffer(d: Decoder, data: seq<byte>, pos: nat, end: nat)
    requires pos <= end <= |data| && d.fed == data[..pos] && (d.live ==> data <= d.source)
    ensures d.CanTake(data[pos..end])
  {
    assert data[..pos] + data[pos..end] == data[..end];
  }

  lemma KeenCall(calls: seq<Call>, n: nat, k: nat)
    requires k < |calls|
    ensures Keen(calls, n) ==> calls[k].avail >= n && calls[k].room > 0
    ensures Keen(calls, n) ==>
      calls[k].flush != Finish && !Stream.Wrong(calls[k].flush)
  {
  }
}
