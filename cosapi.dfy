/** The client object of src/Cosapi.cpp: its result fields, the write
    callback, `sendRequest`, and the operations built on them. Every method
    is proved to leave the state and issue the requests its specification
    function in `Wire`, `SliceTransfer` or `UploadFlow` describes. */
module Client {
  import opened Common
  import opened ContentHash
  import opened Wire
  import opened Builders
  import opened SliceTransfer
  import opened UploadFlow

  /** The bytes a stream opened on `path` delivers: none when it cannot be
      opened. */
  function Contents(env: Env, path: string): seq<byte> {
    match env.files(path)
    case Some(content) => content
    case None => []
  }

  class Cosapi {
    const appId: nat
    const secretId: string
    const secretKey: string

    var responseStr: string
    var retCode: int
    var retMsg: string
    var retJson: Json

    /** The requests this client has issued, oldest first. */
    ghost var sent: seq<Request>

    function State(): ClientState
      reads this
    {
      ClientState(responseStr, retCode, retMsg, retJson)
    }

    function Cred(): Credentials {
      Credentials(appId, secretId, secretKey)
    }

    constructor(appId: nat, secretId: string, secretKey: string)
      ensures this.appId == appId && this.secretId == secretId && this.secretKey == secretKey
      ensures State() == ClientState("", 0, "", Null) && sent == []
    {
      this.appId := appId;
      this.secretId := secretId;
      this.secretKey := secretKey;
      responseStr := "";
      retCode := 0;
      retMsg := "";
      retJson := Null;
      sent := [];
    }

    /** `reset()` */
    method Reset()
      modifies this
      ensures State() == Wire.Reset(old(State())) && sent == old(sent)
    {
      responseStr := "";
      retCode := 0;
      retMsg := "";
      retJson := Cleared(retJson);
    }

    /** `post_callback`: the chunk is copied into a NUL-terminated buffer
        and appended, so only its bytes before the first NUL arrive; the
        whole chunk is reported consumed. */
    method OnData(chunk: string) returns (consumed: nat)
      modifies this
      ensures responseStr == old(responseStr) + UpToNul(chunk)
      ensures retCode == old(retCode) && retMsg == old(retMsg) && retJson == old(retJson) && sent == old(sent)
      ensures consumed == |chunk|
    {
      responseStr := responseStr + UpToNul(chunk);
      consumed := |chunk|;
    }

    /** `sendRequest`: the reply's chunks go through the write callback one
        by one, then the buffer is parsed and the result normalised. */
    method SendRequest(env: Env, req: Request)
      modifies this
      ensures State() == Exchange(env, old(State()), req)
      ensures sent == old(sent) + [req]
    {
      var chunks := env.net(req);
      for i := 0 to |chunks|
        invariant responseStr == old(responseStr) + Received(chunks[..i])
        invariant retCode == old(retCode) && retMsg == old(retMsg) && retJson == old(retJson)
        invariant sent == old(sent)
      {
        assert chunks[..i + 1][..i] == chunks[..i];
        var _ := OnData(chunks[i]);
      }
      assert chunks[..|chunks|] == chunks;
      var parsed := env.parse(responseStr);
      if parsed.Some? {
        retJson := parsed.value;
        retJson := Subscripted(retJson, "code");
        retCode := AsInt(Member(retJson, "code"));
        retJson := Subscripted(retJson, "message");
        retMsg := AsString(Member(retJson, "message"));
      } else {
        retCode := COSAPI_NETWORK_ERROR;
        retMsg := NETWORK_ERROR_MESSAGE;
      }
      sent := sent + [req];
    }

    /** `upload`: the one-shot upload of a whole file. */
    method Upload(env: Env, srcPath: string, bucketName: string, dstPath: string, bizAttr: string)
      returns (code: int)
      modifies this
      ensures var r := OneShot(env, Cred(), old(State()), srcPath, bucketName, dstPath, bizAttr);
        State() == r.state && sent == old(sent) + r.sent
      ensures code == retCode
    {
      Reset();
      var file := env.files(srcPath);
      if file.None? {
        retCode := COSAPI_FILE_NOT_EXISTS;
        retMsg := FILE_NOT_EXISTS_MESSAGE;
        return retCode;
      }
      var expired := env.now + EXPIRED_SECONDS;
      var url := GenerateResUrl(appId, bucketName, dstPath);
      var sign := env.signMore(appId, secretId, secretKey, expired, bucketName);
      var headers := [AuthHeader(sign)];
      var sha1: string, fileLen: nat;
      ghost var feeds: seq<seq<byte>>;
      sha1, fileLen, feeds := GenFileSha1AndLen(file, env.sha1);
      SendRequest(env, Request(url, true, headers, Form(UploadForm(sha1, bizAttr, srcPath))));
      return retCode;
    }

    /** `upload_prepare`: the form is assembled field by field, the optional
        ones only under their conditions. */
    method UploadPrepare(env: Env, fileSize: nat, sha: string, sign: string, url: string,
                         bizAttr: string, session: string, sliceSize: nat)
      returns (code: int)
      modifies this
      ensures var req := PrepareRequest(url, sign, fileSize, sha, bizAttr, session, sliceSize);
        State() == Issue(env, old(State()), req) && sent == old(sent) + [req]
      ensures code == retCode
    {
      Reset();
      var form := [FormField("op", Text("upload_slice")), FormField("filesize", Text(Decimal(fileSize))),
                   FormField("sha", Text(sha))];
      ghost var spec := PrepareHead(fileSize, sha);
      assert form == spec;
      if bizAttr != "" {
        form := form + [FormField("biz_attr", Text(bizAttr))];
      }
      spec := spec + OptionalText("biz_attr", bizAttr, bizAttr != "");
      assert form == spec;
      if session != "" {
        form := form + [FormField("session", Text(session))];
      }
      spec := spec + OptionalText("session", session, session != "");
      assert form == spec;
      if sliceSize > 0 {
        var buf: string;
        if sliceSize <= DEFAULT_SLICE_SIZE {
          buf := Decimal(sliceSize);
        } else {
          buf := Decimal(sliceSize);
        }
        assert buf == SliceSizeText(sliceSize);
        form := form + [FormField("slice_size", Text(buf))];
      }
      spec := spec + OptionalText("slice_size", if sliceSize > 0 then SliceSizeText(sliceSize) else "", sliceSize > 0);
      assert form == spec == PrepareForm(fileSize, sha, bizAttr, session, sliceSize);
      var headers := [AuthHeader(sign)];
      ghost var req := PrepareRequest(url, sign, fileSize, sha, bizAttr, session, sliceSize);
      assert Request(url, true, headers, Form(form)) == req;
      SendRequest(env, Request(url, true, headers, Form(form)));
      code := retCode;
    }

    /** `upload_data`: the slice loop. `sha` is accepted and not used, as
        in the source. */
    method UploadData(env: Env, fileSize: nat, sha: string, sliceSize: nat, sign: string, url: string,
                      srcPath: string, offset: nat, session: string)
      returns (code: int)
      requires sliceSize > 0 || fileSize <= offset
      requires fileSize + sliceSize <= UINT64_LIMIT
      modifies this
      ensures var r := Transfer(env, old(State()), SliceJob(url, sign, session, Contents(env, srcPath), fileSize, sliceSize), offset);
        State() == r.state && sent == old(sent) + r.sent
      ensures code == retCode
    {
      var content := Contents(env, srcPath);
      var job := SliceJob(url, sign, session, content, fileSize, sliceSize);
      ghost var whole := Transfer(env, State(), job, offset);
      ghost var done: seq<Request> := [];
      ghost var sent0 := sent;
      var pos := offset;
      while fileSize > pos
        invariant sliceSize > 0 || fileSize <= pos
        invariant sent == sent0 + done
        invariant whole.state == Transfer(env, State(), job, pos).state
        invariant whole.sent == done + Transfer(env, State(), job, pos).sent
        decreases fileSize - pos
      {
        ghost var before := State();
        TransferStep(env, before, job, pos, done);
        Reset();
        var req := SliceRequest(job, pos);
        SendRequest(env, req);
        AppendAssociative(sent0, done, [req]);
        done := done + [req];
        if retCode != 0 {
          return retCode;
        }
        pos := pos + sliceSize;
      }
      return retCode;
    }

    /** `upload_slice`: the resumable upload. */
    method UploadSlice(env: Env, srcPath: string, bucketName: string, dstPath: string, bizAttr: string,
                       sliceSize: int, session: string)
      returns (code: int)
      requires IsCInt(sliceSize)
      requires GoAheadUsable(env, Cred(), State(), SliceArgs(srcPath, bucketName, dstPath, bizAttr, sliceSize, session))
      modifies this
      ensures var r := SliceUpload(env, Cred(), old(State()),
                                   SliceArgs(srcPath, bucketName, dstPath, bizAttr, sliceSize, session));
        State() == r.state && sent == old(sent) + r.sent
      ensures code == retCode
    {
      ghost var args := SliceArgs(srcPath, bucketName, dstPath, bizAttr, sliceSize, session);
      Reset();
      var file := env.files(srcPath);
      if file.None? {
        retCode := COSAPI_FILE_NOT_EXISTS;
        retMsg := FILE_NOT_EXISTS_MESSAGE;
        return retCode;
      }
      var expired := env.now + EXPIRED_SECONDS;
      var url := GenerateResUrl(appId, bucketName, dstPath);
      var sign := env.signMore(appId, secretId, secretKey, expired, bucketName);
      var sha1: string, fileSize: nat;
      ghost var feeds: seq<seq<byte>>;
      sha1, fileSize, feeds := GenFileSha1AndLen(file, env.sha1);
      SliceUploadAfterPrepare(env, Cred(), old(State()), args, file.value, url, sign, sha1);
      ghost var prep := PrepareRequest(url, sign, fileSize, sha1, bizAttr, session, ToUInt64(sliceSize));
      var _ := UploadPrepare(env, fileSize, sha1, sign, url, bizAttr, session, ToUInt64(sliceSize));
      if retCode != 0 {
        return retCode;
      }
      var data := Member(retJson, "data");
      if IsMember(data, "url") {
        return retCode;
      }
      if !IsMember(data, "offset") || !IsMember(data, "session") || !IsMember(data, "slice_size") {
        return retCode;
      }
      var serverOffset := AsUInt64(Member(data, "offset"));
      var serverSliceSize := AsUInt64(Member(data, "slice_size"));
      var serverSession := AsString(Member(data, "session"));
      ghost var t := Transfer(env, State(), SliceJob(url, sign, serverSession, file.value, fileSize, serverSliceSize),
                              serverOffset);
      var _ := UploadData(env, fileSize, sha1, serverSliceSize, sign, url, srcPath, serverOffset, serverSession);
      AppendAssociative(old(sent), [prep], t.sent);
      return retCode;
    }

    /** `createFolder` */
    method CreateFolder(env: Env, bucketName: string, path: string, toOverWrite: int, bizAttr: string)
      returns (code: int)
      modifies this
      ensures var req := CreateFolderRequest(GenerateResUrl(appId, bucketName, path),
                                             MultiUseSign(env, Cred(), bucketName), toOverWrite, bizAttr);
        State() == Issue(env, old(State()), req) && sent == old(sent) + [req]
      ensures code == retCode
    {
      Reset();
      var expired := env.now + EXPIRED_SECONDS;
      var url := GenerateResUrl(appId, bucketName, path);
      var sign := env.signMore(appId, secretId, secretKey, expired, bucketName);
      var headers := [AuthHeader(sign), JSON_CONTENT_TYPE];
      SendRequest(env, Request(url, true, headers, JsonFields(CreateFolderFields(toOverWrite, bizAttr))));
      return retCode;
    }

    /** `list` */
    method List(env: Env, bucketName: string, path: string, num: int, pattern: string, offset: string,
                order: int)
      returns (code: int)
      modifies this
      ensures var req := ListRequest(GenerateResUrl(appId, bucketName, path),
                                     MultiUseSign(env, Cred(), bucketName), num, pattern, offset, order);
        State() == Issue(env, old(State()), req) && sent == old(sent) + [req]
      ensures code == retCode
    {
      Reset();
      var expired := env.now + EXPIRED_SECONDS;
      var url := GenerateResUrl(appId, bucketName, path);
      url := url + ListQuery(num, pattern, offset, order);
      var sign := env.signMore(appId, secretId, secretKey, expired, bucketName);
      var headers := [AuthHeader(sign)];
      SendRequest(env, Request(url, false, headers, NoBody));
      return retCode;
    }

    /** `update` */
    method Update(env: Env, bucketName: string, path: string, bizAttr: string)
      returns (code: int)
      modifies this
      ensures var req := UpdateRequest(GenerateResUrl(appId, bucketName, path),
                                       OneUseSign(env, Cred(), bucketName, path), bizAttr);
        State() == Issue(env, old(State()), req) && sent == old(sent) + [req]
      ensures code == retCode
    {
      Reset();
      var url := GenerateResUrl(appId, bucketName, path);
      var fileId := FileId(appId, bucketName, path);
      var sign := env.signOnce(appId, secretId, secretKey, fileId, bucketName);
      var headers := [AuthHeader(sign), JSON_CONTENT_TYPE];
      SendRequest(env, Request(url, true, headers, JsonFields(UpdateFields(bizAttr))));
      return retCode;
    }

    /** `stat` */
    method Stat(env: Env, bucketName: string, path: string)
      returns (code: int)
      modifies this
      ensures var req := StatRequest(GenerateResUrl(appId, bucketName, path), MultiUseSign(env, Cred(), bucketName));
        State() == Issue(env, old(State()), req) && sent == old(sent) + [req]
      ensures code == retCode
    {
      Reset();
      var expired := env.now + EXPIRED_SECONDS;
      var url := GenerateResUrl(appId, bucketName, path);
      url := url + STAT_QUERY;
      var sign := env.signMore(appId, secretId, secretKey, expired, bucketName);
      var headers := [AuthHeader(sign)];
      SendRequest(env, Request(url, false, headers, NoBody));
      return retCode;
    }

    /** `del` */
    method Del(env: Env, bucketName: string, path: string)
      returns (code: int)
      modifies this
      ensures var req := DeleteRequest(GenerateResUrl(appId, bucketName, path),
                                       OneUseSign(env, Cred(), bucketName, path));
        State() == Issue(env, old(State()), req) && sent == old(sent) + [req]
      ensures code == retCode
    {
      Reset();
      var url := GenerateResUrl(appId, bucketName, path);
      var fileId := FileId(appId, bucketName, path);
      var sign := env.signOnce(appId, secretId, secretKey, fileId, bucketName);
      var headers := [AuthHeader(sign), JSON_CONTENT_TYPE];
      SendRequest(env, Request(url, true, headers, JsonFields(DeleteFields())));
      return retCode;
    }
  }
}
