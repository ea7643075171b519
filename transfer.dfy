/** The slice loop of `upload_data` (src/Cosapi.cpp:394-464) as a
    specification: which slices are sent, with which offsets and bytes, and
    where the loop stops. The imperative loop in `Client.Cosapi.UploadData`
    is proved to issue exactly these requests. */
module SliceTransfer {
  import opened Common
  import opened ContentHash
  import opened Wire
  import opened Builders

  function Min(a: nat, b: nat): nat {
    if a <= b then a else b
  }

  /** The bytes one pass reads from a stream holding `content` when its read
      position is `pos`: up to `sliceSize` of them, none once the position is
      at or past the end. A file that could not be opened reads as `[]`. */
  function Payload(content: seq<byte>, pos: nat, sliceSize: nat): seq<byte> {
    content[Min(pos, |content|)..Min(pos + sliceSize, |content|)]
  }

  /** A slice is never longer than the slice size, never empty while the
      position is inside the file, and full unless it reaches the end. */
  lemma PayloadBounds(content: seq<byte>, pos: nat, sliceSize: nat)
    ensures |Payload(content, pos, sliceSize)| <= sliceSize
    ensures pos < |content| && sliceSize > 0 ==> |Payload(content, pos, sliceSize)| > 0
    ensures pos + sliceSize <= |content| ==> Payload(content, pos, sliceSize) == content[pos..pos + sliceSize]
    ensures pos < |content| < pos + sliceSize ==> Payload(content, pos, sliceSize) == content[pos..]
  {
  }

  /** What `upload_data` keeps fixed across passes: target URL, signature,
      upload session, the file's bytes, the size the loop runs up to and
      the step. */
  datatype SliceJob = SliceJob(url: string, sign: string, session: string, content: seq<byte>,
                               fileSize: nat, sliceSize: nat)

  /** The request of the pass at `pos`. */
  function SliceRequest(job: SliceJob, pos: nat): Request {
    Request(job.url, true, [AuthHeader(job.sign)],
            Form(SliceForm(pos, job.session, Payload(job.content, pos, job.sliceSize))))
  }

  /** A finished run: the client state it leaves and the requests it sent,
      in order. */
  datatype Run = Run(state: ClientState, sent: seq<Request>)

  /** The offset slice `k` starts at when the loop starts at `pos`. */
  function SliceOffset(pos: nat, k: nat, sliceSize: nat): nat {
    pos + k * sliceSize
  }

  /** The offsets the loop visits when no slice fails: from `pos` in steps of
      `sliceSize` while below `fileSize`. */
  function Offsets(fileSize: nat, pos: nat, sliceSize: nat): seq<nat>
    requires sliceSize > 0 || fileSize <= pos
    decreases fileSize - pos
  {
    if fileSize <= pos then [] else [pos] + Offsets(fileSize, pos + sliceSize, sliceSize)
  }

  /** The loop from `pos` on, for a loop whose pass at offset `p` sends
      `slice(p)`: each pass resets the result state and sends one request; a
      nonzero code ends it, otherwise the cursor moves by the full slice
      size. A zero slice size is admitted only when the loop does not run at
      all (the source would spin forever otherwise). */
  function SliceLoop(env: Env, st: ClientState, slice: nat -> Request, fileSize: nat, sliceSize: nat, pos: nat): Run
    requires sliceSize > 0 || fileSize <= pos
    decreases fileSize - pos
  {
    if fileSize <= pos then Run(st, [])
    else
      var req := slice(pos);
      var next := Issue(env, st, req);
      if next.retCode != 0 then Run(next, [req])
      else
        var rest := SliceLoop(env, next, slice, fileSize, sliceSize, pos + sliceSize);
        Run(rest.state, [req] + rest.sent)
  }

  /** The request each pass of `upload_data` builds. */
  function Slices(job: SliceJob): nat -> Request {
    (pos: nat) => SliceRequest(job, pos)
  }

  /** `upload_data`'s loop from `pos` on. */
  function Transfer(env: Env, st: ClientState, job: SliceJob, pos: nat): Run
    requires job.sliceSize > 0 || job.fileSize <= pos
  {
    SliceLoop(env, st, Slices(job), job.fileSize, job.sliceSize, pos)
  }

  /** Proof helper for `Client.Cosapi.UploadData`: one pass of the loop,
      from the state before its `reset()`. The run from `pos` is this pass's
      request followed, on code 0, by the run from the next offset. */
  lemma TransferStep(env: Env, st: ClientState, job: SliceJob, pos: nat, done: seq<Request>)
    requires job.sliceSize > 0 && pos < job.fileSize
    ensures var req := SliceRequest(job, pos);
      var next := Issue(env, st, req);
      var r := Transfer(env, st, job, pos);
      && (next.retCode != 0 ==> r.state == next && done + r.sent == done + [req])
      && (next.retCode == 0 ==>
            var rest := Transfer(env, next, job, pos + job.sliceSize);
            r.state == rest.state && done + r.sent == (done + [req]) + rest.sent)
  {
    var req := SliceRequest(job, pos);
    assert Slices(job)(pos) == req;
    var next := Issue(env, st, req);
    if next.retCode == 0 {
      var rest := Transfer(env, next, job, pos + job.sliceSize);
      AppendAssociative(done, [req], rest.sent);
    }
  }

  // ---------------------------------------------------------------------
  // The schedule

  /** Offset `k` is `pos + k * sliceSize` and lies inside the file. */
  lemma {:induction false} OffsetsAt(fileSize: nat, pos: nat, sliceSize: nat)
    requires sliceSize > 0
    ensures var o := Offsets(fileSize, pos, sliceSize);
      forall k :: 0 <= k < |o| ==> o[k] == SliceOffset(pos, k, sliceSize) && o[k] < fileSize
    decreases fileSize - pos
  {
    if pos < fileSize {
      var o := Offsets(fileSize, pos, sliceSize);
      var o' := Offsets(fileSize, pos + sliceSize, sliceSize);
      assert o == [pos] + o';
      OffsetsAt(fileSize, pos + sliceSize, sliceSize);
      forall k | 0 <= k < |o|
        ensures o[k] == SliceOffset(pos, k, sliceSize) && o[k] < fileSize
      {
        if k > 0 {
          assert o[k] == o'[k - 1] == SliceOffset(pos + sliceSize, k - 1, sliceSize);
          assert (k - 1) * sliceSize + sliceSize == k * sliceSize;
        }
      }
    }
  }

  /** There are `ceil((fileSize - pos) / sliceSize)` offsets, none when
      `pos` is at or past `fileSize`. */
  lemma {:induction false} OffsetsCount(fileSize: nat, pos: nat, sliceSize: nat)
    requires sliceSize > 0
    ensures fileSize <= pos ==> |Offsets(fileSize, pos, sliceSize)| == 0
    ensures pos < fileSize ==>
      var n := |Offsets(fileSize, pos, sliceSize)|;
      (n - 1) * sliceSize < fileSize - pos <= n * sliceSize
    decreases fileSize - pos
  {
    if pos < fileSize {
      var n' := |Offsets(fileSize, pos + sliceSize, sliceSize)|;
      assert |Offsets(fileSize, pos, sliceSize)| == n' + 1;
      OffsetsCount(fileSize, pos + sliceSize, sliceSize);
      assert (n' + 1) * sliceSize == n' * sliceSize + sliceSize;
      if pos + sliceSize < fileSize {
        assert (n' - 1) * sliceSize + sliceSize == n' * sliceSize;
      }
    }
  }

  /** The slice count in closed form, `ceil((fileSize - pos) / sliceSize)`,
      and `(fileSize - pos) / sliceSize` when the distance is a multiple of
      the slice size. */
  lemma SliceCount(fileSize: nat, pos: nat, sliceSize: nat)
    requires sliceSize > 0 && pos < fileSize
    ensures |Offsets(fileSize, pos, sliceSize)| == (fileSize - pos + sliceSize - 1) / sliceSize
    ensures (fileSize - pos) % sliceSize == 0 ==>
      |Offsets(fileSize, pos, sliceSize)| == (fileSize - pos) / sliceSize
  {
    OffsetsCount(fileSize, pos, sliceSize);
    var n := |Offsets(fileSize, pos, sliceSize)|;
    var d := fileSize - pos;
    assert (n - 1) * sliceSize == n * sliceSize - sliceSize;
    DivModUnique(d + sliceSize - 1, sliceSize, n, d + sliceSize - 1 - n * sliceSize);
    if d % sliceSize == 0 {
      var q := d / sliceSize;
      assert d == q * sliceSize;
      if q < n {
        MulAtLeast(n - q, sliceSize);
      } else if q > n {
        MulAtLeast(q - n, sliceSize);
      }
    }
  }

  /** A 25 MiB file sent in 3 MiB slices from offset 0 takes nine slices,
      the last of them declared at offset 25165824. */
  lemma NineSlicesOfTwentyFiveMiB()
    ensures var o := Offsets(26214400, 0, 3145728);
      |o| == 9 && o[8] == 25165824
  {
    SliceCount(26214400, 0, 3145728);
    OffsetsAt(26214400, 0, 3145728);
  }

  /** The bytes of the slices in schedule order. */
  function SlicePayloads(content: seq<byte>, offsets: seq<nat>, sliceSize: nat): (ps: seq<seq<byte>>)
    ensures |ps| == |offsets|
  {
    if offsets == [] then [] else [Payload(content, offsets[0], sliceSize)] + SlicePayloads(content, offsets[1..], sliceSize)
  }

  /** When the loop runs up to the file's real length, its slices put
      together give the file from the starting offset on. */
  lemma {:induction false} SlicesCoverFile(content: seq<byte>, pos: nat, sliceSize: nat)
    requires sliceSize > 0 && pos <= |content|
    ensures Concat(SlicePayloads(content, Offsets(|content|, pos, sliceSize), sliceSize)) == content[pos..]
    decreases |content| - pos
  {
    if pos < |content| {
      var p := Payload(content, pos, sliceSize);
      var o' := Offsets(|content|, pos + sliceSize, sliceSize);
      var rest := SlicePayloads(content, o', sliceSize);
      assert Offsets(|content|, pos, sliceSize) == [pos] + o';
      assert SlicePayloads(content, [pos] + o', sliceSize) == [p] + rest;
      ConcatAppend([p], rest);
      assert Concat([p]) == Concat([]) + p;
      if pos + sliceSize < |content| {
        SlicesCoverFile(content, pos + sliceSize, sliceSize);
        assert content[pos..] == content[pos..pos + sliceSize] + content[pos + sliceSize..];
      } else {
        assert rest == [];
      }
    } else {
      assert content[pos..] == [];
    }
  }

  /** Every slice of that run is non-empty and at most one slice size
      long. */
  lemma {:induction false} SliceLengths(content: seq<byte>, pos: nat, sliceSize: nat)
    requires sliceSize > 0
    ensures forall k :: 0 <= k < |SlicePayloads(content, Offsets(|content|, pos, sliceSize), sliceSize)| ==>
      0 < |SlicePayloads(content, Offsets(|content|, pos, sliceSize), sliceSize)[k]| <= sliceSize
    decreases |content| - pos
  {
    if pos < |content| {
      var o' := Offsets(|content|, pos + sliceSize, sliceSize);
      var ps := SlicePayloads(content, [pos] + o', sliceSize);
      var rest := SlicePayloads(content, o', sliceSize);
      assert Offsets(|content|, pos, sliceSize) == [pos] + o';
      assert ps == [Payload(content, pos, sliceSize)] + rest;
      PayloadBounds(content, pos, sliceSize);
      SliceLengths(content, pos + sliceSize, sliceSize);
      forall k | 0 < k < |ps|
        ensures 0 < |ps[k]| <= sliceSize
      {
        assert ps[k] == rest[k - 1];
      }
    }
  }

  // ---------------------------------------------------------------------
  // The loop against the schedule

  /** The requests the loop sends, read off the replies alone: each reply's
      code decides whether the next pass follows. */
  function Sent(env: Env, slice: nat -> Request, fileSize: nat, sliceSize: nat, pos: nat): seq<Request>
    requires sliceSize > 0 || fileSize <= pos
    decreases fileSize - pos
  {
    if fileSize <= pos then []
    else
      var req := slice(pos);
      if ReplyCode(env, req) != 0 then [req] else [req] + Sent(env, slice, fileSize, sliceSize, pos + sliceSize)
  }

  /** The reply to `req` is what the client state shows: its code, its
      message, its bytes in the buffer, and, when it parses, its JSON value
      as `sendRequest` stores it. */
  predicate ShowsReply(env: Env, st: ClientState, req: Request) {
    && st.retCode == ReplyCode(env, req)
    && st.retMsg == ReplyMessage(env, req)
    && st.responseStr == Received(env.net(req))
    && (env.parse(Received(env.net(req))).Some? ==> st.retJson == StoredReply(env.parse(Received(env.net(req))).value))
  }

  /** The loop sends exactly `Sent`, whatever the state it starts from; it
      ends showing the last reply, or in the state it started from
      when nothing was sent. */
  lemma {:induction false} LoopSent(env: Env, st: ClientState, slice: nat -> Request, fileSize: nat, sliceSize: nat, pos: nat)
    requires sliceSize > 0
    ensures var r := SliceLoop(env, st, slice, fileSize, sliceSize, pos);
      var sent := Sent(env, slice, fileSize, sliceSize, pos);
      && r.sent == sent
      && (sent == [] ==> r.state == st)
      && (sent != [] ==> ShowsReply(env, r.state, sent[|sent| - 1]))
    decreases fileSize - pos
  {
    if pos < fileSize {
      var req := slice(pos);
      var next := Issue(env, st, req);
      IssueReply(env, st, req);
      if next.retCode == 0 {
        LoopSent(env, next, slice, fileSize, sliceSize, pos + sliceSize);
        var rest := Sent(env, slice, fileSize, sliceSize, pos + sliceSize);
        if rest != [] {
          assert ([req] + rest)[|rest|] == rest[|rest| - 1];
        }
      }
    }
  }

  /** The requests sent are those of the first offsets of the schedule, and
      none are sent exactly when the schedule is empty. */
  lemma {:induction false} SentPrefix(env: Env, slice: nat -> Request, fileSize: nat, sliceSize: nat, pos: nat)
    requires sliceSize > 0
    ensures var sent := Sent(env, slice, fileSize, sliceSize, pos);
      var o := Offsets(fileSize, pos, sliceSize);
      && |sent| <= |o|
      && (sent == [] <==> o == [])
      && forall k :: 0 <= k < |sent| ==> sent[k] == slice(o[k])
    decreases fileSize - pos
  {
    if pos < fileSize && ReplyCode(env, slice(pos)) == 0 {
      SentPrefix(env, slice, fileSize, sliceSize, pos + sliceSize);
      var sent := Sent(env, slice, fileSize, sliceSize, pos);
      var rest := Sent(env, slice, fileSize, sliceSize, pos + sliceSize);
      var o := Offsets(fileSize, pos, sliceSize);
      assert o == [pos] + Offsets(fileSize, pos + sliceSize, sliceSize);
      forall k | 0 < k < |sent|
        ensures sent[k] == slice(o[k])
      {
        assert sent[k] == rest[k - 1];
      }
    }
  }

  /** Every request sent but the last was accepted with code 0. */
  lemma {:induction false} SentFailFast(env: Env, slice: nat -> Request, fileSize: nat, sliceSize: nat, pos: nat)
    requires sliceSize > 0
    ensures forall k :: 0 <= k < |Sent(env, slice, fileSize, sliceSize, pos)| - 1 ==>
      ReplyCode(env, Sent(env, slice, fileSize, sliceSize, pos)[k]) == 0
    decreases fileSize - pos
  {
    if pos < fileSize && ReplyCode(env, slice(pos)) == 0 {
      SentFailFast(env, slice, fileSize, sliceSize, pos + sliceSize);
      var sent := Sent(env, slice, fileSize, sliceSize, pos);
      var rest := Sent(env, slice, fileSize, sliceSize, pos + sliceSize);
      assert sent == [slice(pos)] + rest;
      forall k | 0 < k < |sent| - 1
        ensures ReplyCode(env, sent[k]) == 0
      {
        assert sent[k] == rest[k - 1];
      }
    }
  }

  /** The loop stops short of the schedule only on a nonzero code. */
  lemma {:induction false} SentStopsOnlyOnFailure(env: Env, slice: nat -> Request, fileSize: nat, sliceSize: nat, pos: nat)
    requires sliceSize > 0
    ensures var sent := Sent(env, slice, fileSize, sliceSize, pos);
      |sent| < |Offsets(fileSize, pos, sliceSize)| ==>
        sent != [] && ReplyCode(env, sent[|sent| - 1]) != 0
    decreases fileSize - pos
  {
    if pos < fileSize && ReplyCode(env, slice(pos)) == 0 {
      SentStopsOnlyOnFailure(env, slice, fileSize, sliceSize, pos + sliceSize);
      var req := slice(pos);
      var rest := Sent(env, slice, fileSize, sliceSize, pos + sliceSize);
      assert Offsets(fileSize, pos, sliceSize) == [pos] + Offsets(fileSize, pos + sliceSize, sliceSize);
      if rest != [] {
        assert ([req] + rest)[|rest|] == rest[|rest| - 1];
      }
    }
  }

  /** The facts together, for `upload_data`'s loop: it sends the slices of a
      prefix of the schedule, every slice but the last was accepted, the
      final state shows the last slice's reply (code, message, buffer,
      stored JSON), and it stops early only on a nonzero code. */
  lemma TransferFollowsSchedule(env: Env, st: ClientState, job: SliceJob, pos: nat)
    requires job.sliceSize > 0
    ensures var r := Transfer(env, st, job, pos);
      var o := Offsets(job.fileSize, pos, job.sliceSize);
      && |r.sent| <= |o|
      && (forall k :: 0 <= k < |r.sent| ==> r.sent[k] == SliceRequest(job, o[k]))
      && (forall k :: 0 <= k < |r.sent| - 1 ==> ReplyCode(env, r.sent[k]) == 0)
      && (r.sent == [] ==> r.state == st && o == [])
      && (r.sent != [] ==> ShowsReply(env, r.state, r.sent[|r.sent| - 1]))
      && (|r.sent| < |o| ==> r.sent != [] && ReplyCode(env, r.sent[|r.sent| - 1]) != 0)
  {
    var slice := Slices(job);
    LoopSent(env, st, slice, job.fileSize, job.sliceSize, pos);
    SentPrefix(env, slice, job.fileSize, job.sliceSize, pos);
    SentFailFast(env, slice, job.fileSize, job.sliceSize, pos);
    SentStopsOnlyOnFailure(env, slice, job.fileSize, job.sliceSize, pos);
  }

  /** Slice `k` of the loop declares offset `pos + k * sliceSize`, which lies
      inside the file. */
  lemma TransferOffsets(env: Env, st: ClientState, job: SliceJob, pos: nat)
    requires job.sliceSize > 0
    ensures var r := Transfer(env, st, job, pos);
      forall k :: 0 <= k < |r.sent| ==>
        r.sent[k] == SliceRequest(job, SliceOffset(pos, k, job.sliceSize))
        && SliceOffset(pos, k, job.sliceSize) < job.fileSize
  {
    TransferFollowsSchedule(env, st, job, pos);
    OffsetsAt(job.fileSize, pos, job.sliceSize);
  }

  /** Starting from code 0, the loop ends with code 0 exactly when every
      scheduled slice was sent and accepted. */
  lemma TransferSucceeds(env: Env, st: ClientState, job: SliceJob, pos: nat)
    requires job.sliceSize > 0 && st.retCode == 0
    ensures var r := Transfer(env, st, job, pos);
      r.state.retCode == 0 <==>
        |r.sent| == |Offsets(job.fileSize, pos, job.sliceSize)|
        && forall k :: 0 <= k < |r.sent| ==> ReplyCode(env, r.sent[k]) == 0
  {
    TransferFollowsSchedule(env, st, job, pos);
  }
}
