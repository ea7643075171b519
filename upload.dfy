/** The two upload operations as specifications: the one-shot `upload`
    (src/Cosapi.cpp:209-263) and the resumable `upload_slice`
    (src/Cosapi.cpp:265-323), which negotiates with `upload_prepare` and then
    runs the slice loop from where the server says. The methods of
    `Client.Cosapi` are proved to follow these. */
module UploadFlow {
  import opened Common
  import opened Hex
  import opened Wire
  import opened Builders
  import opened SliceTransfer

  /** `APPID`, `SECRET_ID`, `SECRET_KEY` of a client object. */
  datatype Credentials = Credentials(appId: nat, secretId: string, secretKey: string)

  /** The implicit conversion of an `int` argument to a `uint64_t`
      parameter: negative values wrap around to the top of the range. */
  function ToUInt64(i: int): (n: nat)
    requires IsCInt(i)
    ensures n < UINT64_LIMIT
    ensures n % UINT64_LIMIT == i % UINT64_LIMIT
    ensures i >= 0 ==> n == i
    ensures i < 0 ==> n > DEFAULT_SLICE_SIZE
  {
    if i < 0 then i + UINT64_LIMIT else i
  }

  /** The multi-use signature every operation but `update` and `del` sends:
      valid for `EXPIRED_SECONDS` from now and bound to the bucket. */
  function MultiUseSign(env: Env, cred: Credentials, bucket: string): string {
    env.signMore(cred.appId, cred.secretId, cred.secretKey, env.now + EXPIRED_SECONDS, bucket)
  }

  /** The single-use signature of `update` and `del`, bound to the file id. */
  function OneUseSign(env: Env, cred: Credentials, bucket: string, path: string): string {
    env.signOnce(cred.appId, cred.secretId, cred.secretKey, FileId(cred.appId, bucket, path), bucket)
  }

  /** The state an unreadable source path leaves. */
  function NotReadable(st: ClientState): ClientState {
    Reset(st).(retCode := COSAPI_FILE_NOT_EXISTS, retMsg := FILE_NOT_EXISTS_MESSAGE)
  }

  // ---------------------------------------------------------------------
  // One-shot upload

  /** `upload`: after the access check, one form carrying the hex SHA-1 of
      the whole file and the file itself. */
  function OneShot(env: Env, cred: Credentials, st: ClientState,
                   srcPath: string, bucket: string, dstPath: string, bizAttr: string): Run
  {
    match env.files(srcPath)
    case None => Run(NotReadable(st), [])
    case Some(content) =>
      var req := UploadRequest(GenerateResUrl(cred.appId, bucket, dstPath), MultiUseSign(env, cred, bucket),
                               HexEncode(env.sha1(content)), bizAttr, srcPath);
      Run(Issue(env, st, req), [req])
  }

  /** An unreadable path is reported as `COSAPI_FILE_NOT_EXISTS` before any
      request; a readable one sends a single form whose `sha` is the 40-digit
      digest of the file's bytes, and returns the server's code. */
  lemma OneShotOutcome(env: Env, cred: Credentials, st: ClientState,
                       srcPath: string, bucket: string, dstPath: string, bizAttr: string)
    ensures var r := OneShot(env, cred, st, srcPath, bucket, dstPath, bizAttr);
      && (env.files(srcPath).None? ==>
            r.sent == [] && r.state.retCode == COSAPI_FILE_NOT_EXISTS && r.state.retMsg == FILE_NOT_EXISTS_MESSAGE)
      && (env.files(srcPath).Some? ==>
            && |r.sent| == 1
            && r.state.retCode == ReplyCode(env, r.sent[0])
            && r.sent[0].url == GenerateResUrl(cred.appId, bucket, dstPath)
            && r.sent[0].body.Form?
            && (var sha := Lookup(r.sent[0].body.parts, "sha");
                sha.Some? && sha.value.Text? && |sha.value.text| == 40
                && sha.value.text == HexEncode(env.sha1(env.files(srcPath).value)))
            && Lookup(r.sent[0].body.parts, "filecontent") == Some(FilePart(srcPath)))
  {
    if env.files(srcPath).Some? {
      var r := OneShot(env, cred, st, srcPath, bucket, dstPath, bizAttr);
      IssueOutcome(env, st, r.sent[0]);
    }
  }

  // ---------------------------------------------------------------------
  // Resumable upload

  /** The arguments of `upload_slice`. */
  datatype SliceArgs = SliceArgs(srcPath: string, bucket: string, dstPath: string, bizAttr: string,
                                 sliceSize: int, session: string)

  /** How `upload_slice` reads the prepare reply, checked in this order: a
      nonzero code, a finished upload (`data.url`), a reply lacking one of
      `offset`, `session`, `slice_size`, or the go-ahead with the server's
      three values. */
  datatype Negotiation =
    | Refused
    | Dedup
    | Incomplete
    | Proceed(offset: nat, sliceSize: nat, session: string)

  function Negotiate(st: ClientState): Negotiation {
    var data := Member(st.retJson, "data");
    if st.retCode != 0 then Refused
    else if IsMember(data, "url") then Dedup
    else if !IsMember(data, "offset") || !IsMember(data, "session") || !IsMember(data, "slice_size") then Incomplete
    else Proceed(AsUInt64(Member(data, "offset")), AsUInt64(Member(data, "slice_size")),
                 AsString(Member(data, "session")))
  }

  /** The prepare request for a readable file with bytes `content`: the
      caller's slice size, converted to `uint64_t`, goes into the form. */
  function PrepareFor(env: Env, cred: Credentials, args: SliceArgs, content: seq<byte>): Request
    requires IsCInt(args.sliceSize)
  {
    PrepareRequest(GenerateResUrl(cred.appId, args.bucket, args.dstPath), MultiUseSign(env, cred, args.bucket),
                   |content|, HexEncode(env.sha1(content)), args.bizAttr, args.session,
                   ToUInt64(args.sliceSize))
  }

  /** The loop `upload_slice` starts on a go-ahead: the server's session and
      slice size, up to the file's length. */
  function JobFor(env: Env, cred: Credentials, args: SliceArgs, content: seq<byte>,
                  sliceSize: nat, session: string): SliceJob
  {
    SliceJob(GenerateResUrl(cred.appId, args.bucket, args.dstPath), MultiUseSign(env, cred, args.bucket),
             session, content, |content|, sliceSize)
  }

  /** What the model needs of the server's go-ahead: a positive slice size
      whenever the loop would run (the source spins forever on 0), and a
      cursor that stays within `uint64_t`. */
  predicate GoAheadUsable(env: Env, cred: Credentials, st: ClientState, args: SliceArgs)
    requires IsCInt(args.sliceSize)
  {
    match env.files(args.srcPath)
    case None => true
    case Some(content) =>
      match Negotiate(Issue(env, Reset(st), PrepareFor(env, cred, args, content)))
      case Proceed(offset, sliceSize, _) =>
        (sliceSize > 0 || |content| <= offset) && |content| + sliceSize <= UINT64_LIMIT
      case _ => true
  }

  /** `upload_slice`: reset, access check, prepare, then the loop only on a
      go-ahead. */
  function SliceUpload(env: Env, cred: Credentials, st: ClientState, args: SliceArgs): Run
    requires IsCInt(args.sliceSize) && GoAheadUsable(env, cred, st, args)
  {
    var st0 := Reset(st);
    match env.files(args.srcPath)
    case None => Run(NotReadable(st), [])
    case Some(content) =>
      var prep := PrepareFor(env, cred, args, content);
      var st1 := Issue(env, st0, prep);
      match Negotiate(st1)
      case Proceed(offset, sliceSize, session) =>
        var r := Transfer(env, st1, JobFor(env, cred, args, content, sliceSize, session), offset);
        Run(r.state, [prep] + r.sent)
      case _ => Run(st1, [prep])
  }

  /** Proof helper for `Client.Cosapi.UploadSlice`: `upload_slice` once
      the prepare reply is in, stated over the URL, signature and digest the
      call computed. It ends there unless the reply is a go-ahead, and on a
      go-ahead it runs the loop from that state with a usable slice size. */
  lemma SliceUploadAfterPrepare(env: Env, cred: Credentials, st: ClientState, args: SliceArgs, content: seq<byte>,
                                url: string, sign: string, sha: string)
    requires IsCInt(args.sliceSize) && GoAheadUsable(env, cred, st, args)
    requires env.files(args.srcPath) == Some(content)
    requires url == GenerateResUrl(cred.appId, args.bucket, args.dstPath)
    requires sign == MultiUseSign(env, cred, args.bucket)
    requires sha == HexEncode(env.sha1(content))
    ensures var prep := PrepareRequest(url, sign, |content|, sha, args.bizAttr, args.session, ToUInt64(args.sliceSize));
      var st1 := Issue(env, Reset(st), prep);
      var n := Negotiate(st1);
      var r := SliceUpload(env, cred, st, args);
      && (!n.Proceed? ==> r == Run(st1, [prep]))
      && (n.Proceed? ==>
            && (n.sliceSize > 0 || |content| <= n.offset)
            && |content| + n.sliceSize <= UINT64_LIMIT
            && var t := Transfer(env, st1, SliceJob(url, sign, n.session, content, |content|, n.sliceSize), n.offset);
               r == Run(t.state, [prep] + t.sent))
  {
    assert PrepareFor(env, cred, args, content)
      == PrepareRequest(url, sign, |content|, sha, args.bizAttr, args.session, ToUInt64(args.sliceSize));
  }

  /** The `data` object of the reply to `req`, when the reply parses. */
  function ReplyData(env: Env, req: Request): Json {
    match env.parse(Received(env.net(req)))
    case Some(j) => Member(j, "data")
    case None => Null
  }

  /** An unreadable path is reported as `COSAPI_FILE_NOT_EXISTS` before any
      request is sent. */
  lemma SliceUploadNotReadable(env: Env, cred: Credentials, st: ClientState, args: SliceArgs)
    requires IsCInt(args.sliceSize) && GoAheadUsable(env, cred, st, args)
    requires env.files(args.srcPath).None?
    ensures var r := SliceUpload(env, cred, st, args);
      r.sent == [] && r.state.retCode == COSAPI_FILE_NOT_EXISTS && r.state.retMsg == FILE_NOT_EXISTS_MESSAGE
  {
  }

  /** For a readable file the prepare request goes first, and what follows
      depends on its reply alone, in the source's order: a nonzero code ends
      the call showing that reply; a reply naming a `url` ends the call with
      code 0, showing that reply (the resource URL is in `retJson`); a reply
      lacking `offset`, `session` or `slice_size` also ends it with code 0,
      showing that reply; otherwise the slices that follow are those of the loop run
      with the server's offset, slice size and session. */
  lemma SliceUploadBranches(env: Env, cred: Credentials, st: ClientState, args: SliceArgs)
    requires IsCInt(args.sliceSize) && GoAheadUsable(env, cred, st, args)
    requires env.files(args.srcPath).Some?
    ensures var content := env.files(args.srcPath).value;
      var prep := PrepareFor(env, cred, args, content);
      var code := ReplyCode(env, prep);
      var data := ReplyData(env, prep);
      var r := SliceUpload(env, cred, st, args);
      && |r.sent| >= 1 && r.sent[0] == prep
      && (code != 0 ==> r.sent == [prep] && ShowsReply(env, r.state, prep))
      && (code == 0 && IsMember(data, "url") ==> r.sent == [prep] && r.state.retCode == 0 && ShowsReply(env, r.state, prep))
      && ((code == 0 && !IsMember(data, "url")
           && !(IsMember(data, "offset") && IsMember(data, "session") && IsMember(data, "slice_size")))
          ==> r.sent == [prep] && r.state.retCode == 0 && ShowsReply(env, r.state, prep))
      && ((code == 0 && !IsMember(data, "url")
           && IsMember(data, "offset") && IsMember(data, "session") && IsMember(data, "slice_size"))
          ==> var offset := AsUInt64(Member(data, "offset"));
                var step := AsUInt64(Member(data, "slice_size"));
                var job := JobFor(env, cred, args, content, step, AsString(Member(data, "session")));
                && (step > 0 || |content| <= offset)
                && r.sent[1..] == Transfer(env, Issue(env, Reset(st), prep), job, offset).sent)
  {
    var content := env.files(args.srcPath).value;
    var prep := PrepareFor(env, cred, args, content);
    IssueOutcome(env, Reset(st), prep);
    IssueReply(env, Reset(st), prep);
  }

  /** On a go-ahead with a positive slice size, the slices after the prepare
      request are the loop's: slice `k` declares offset `offset + k * step`
      inside the file and carries the file's bytes from there under the
      server's session; all slices but the last were accepted; the call ends
      showing the last slice's reply; and it returns 0 exactly when
      every scheduled slice was sent and accepted. */
  lemma SliceUploadSlices(env: Env, cred: Credentials, st: ClientState, args: SliceArgs)
    requires IsCInt(args.sliceSize) && GoAheadUsable(env, cred, st, args)
    requires env.files(args.srcPath).Some?
    requires Negotiate(Issue(env, Reset(st), PrepareFor(env, cred, args, env.files(args.srcPath).value))).Proceed?
    ensures var content := env.files(args.srcPath).value;
      var n := Negotiate(Issue(env, Reset(st), PrepareFor(env, cred, args, content)));
      var job := JobFor(env, cred, args, content, n.sliceSize, n.session);
      var r := SliceUpload(env, cred, st, args);
      var slices := r.sent[1..];
      n.sliceSize > 0 ==>
        && |r.sent| >= 1
        && |slices| <= |Offsets(|content|, n.offset, n.sliceSize)|
        && (forall k :: 0 <= k < |slices| ==>
              && slices[k] == SliceRequest(job, SliceOffset(n.offset, k, n.sliceSize))
              && SliceOffset(n.offset, k, n.sliceSize) < |content|)
        && (forall k :: 0 <= k < |slices| - 1 ==> ReplyCode(env, slices[k]) == 0)
        && (|slices| > 0 ==> ShowsReply(env, r.state, slices[|slices| - 1]))
        && (r.state.retCode == 0 <==>
              |slices| == |Offsets(|content|, n.offset, n.sliceSize)|
              && forall k :: 0 <= k < |slices| ==> ReplyCode(env, slices[k]) == 0)
  {
    var content := env.files(args.srcPath).value;
    var prep := PrepareFor(env, cred, args, content);
    var st1 := Issue(env, Reset(st), prep);
    var n := Negotiate(st1);
    var job := JobFor(env, cred, args, content, n.sliceSize, n.session);
    var t := Transfer(env, st1, job, n.offset);
    assert SliceUpload(env, cred, st, args) == Run(t.state, [prep] + t.sent);
    assert ([prep] + t.sent)[1..] == t.sent;
    if n.sliceSize > 0 {
      TransferFollowsSchedule(env, st1, job, n.offset);
      TransferOffsets(env, st1, job, n.offset);
      TransferSucceeds(env, st1, job, n.offset);
    }
  }
}
