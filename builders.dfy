/** The strings and field sets the client assembles before a request: the
    resource URL, the signed file id, the GET query strings, the JSON bodies
    of the metadata operations and the multipart forms of the upload
    operations. */
module Builders {
  import opened Common
  import opened Wire

  const API_COSAPI_END_POINT: string := "http://web.file.myqcloud.com/files/v1/"

  /** Validity window of a multi-use signature, in seconds. */
  const EXPIRED_SECONDS: nat := 2592000

  const DEFAULT_SLICE_SIZE: nat := 3145728

  // ---------------------------------------------------------------------
  // Resource URL and file id

  /** `generateResUrl`: `"%s%lu/%s%s"` of endpoint, app id, bucket, path. */
  function GenerateResUrl(appId: nat, bucket: string, dstPath: string): string {
    API_COSAPI_END_POINT + Decimal(appId) + "/" + bucket + dstPath
  }

  /** The resource a single-use signature is bound to: `"/%lu/%s%s"`. */
  function FileId(appId: nat, bucket: string, path: string): string {
    "/" + Decimal(appId) + "/" + bucket + path
  }

  /** Reads a resource URL back: the app id between the endpoint and the
      next '/', and everything after that '/'. */
  function SplitResUrl(url: string): Option<(nat, string)> {
    if API_COSAPI_END_POINT <= url then
      var tail := url[|API_COSAPI_END_POINT|..];
      var id := TakeUntil(tail, '/');
      match ParseDecimal(id)
      case Some(n) => if |id| < |tail| then Some((n, tail[|id| + 1..])) else None
      case None => None
    else None
  }

  lemma DecimalHasNoSeparator(n: nat, c: char)
    requires !IsDigit(c)
    ensures c !in Decimal(n)
  {
  }

  /** The URL names the app id it was built from, followed by bucket and
      path. */
  lemma {:induction false} ResUrlRoundTrip(appId: nat, bucket: string, dstPath: string)
    ensures SplitResUrl(GenerateResUrl(appId, bucket, dstPath)) == Some((appId, bucket + dstPath))
  {
    var url := GenerateResUrl(appId, bucket, dstPath);
    var d := Decimal(appId);
    assert url == API_COSAPI_END_POINT + (d + ['/'] + (bucket + dstPath));
    var tail := url[|API_COSAPI_END_POINT|..];
    assert tail == d + ['/'] + (bucket + dstPath);
    DecimalHasNoSeparator(appId, '/');
    TakeUntilJoin(d, '/', bucket + dstPath);
    DecimalRoundTrip(appId);
    assert tail[|d| + 1..] == bucket + dstPath;
  }

  /** The URL is the endpoint (without its final '/') followed by the file
      id: a single-use signature and the request it authorises name the
      same resource. */
  lemma ResUrlEndsWithFileId(appId: nat, bucket: string, path: string)
    ensures GenerateResUrl(appId, bucket, path)
      == API_COSAPI_END_POINT[..|API_COSAPI_END_POINT| - 1] + FileId(appId, bucket, path)
  {
    var e := API_COSAPI_END_POINT;
    assert e == e[..|e| - 1] + "/";
  }

  // ---------------------------------------------------------------------
  // Query strings

  /** Pieces joined by a separator. */
  function JoinOn(pieces: seq<string>, c: char): string
    requires |pieces| >= 1
  {
    if |pieces| == 1 then pieces[0] else pieces[0] + [c] + JoinOn(pieces[1..], c)
  }

  /** The query `list` appends, `"?op=list&num=%d&pattern=%s&offset=%s&order=%d"`,
      written as its five '&'-joined parameters. Pattern and offset are
      inserted as they are, without escaping. */
  function ListQuery(num: int, pattern: string, offset: string, order: int): string {
    "?" + JoinOn(ListPieces(num, pattern, offset, order), '&')
  }

  /** The query `stat` appends. */
  const STAT_QUERY: string := "?op=stat"

  /** `s` cut at every `c`. */
  function SplitOn(s: string, c: char): (parts: seq<string>)
    ensures |parts| >= 1
    decreases |s|
  {
    var head := TakeUntil(s, c);
    if |head| == |s| then [s] else [head] + SplitOn(s[|head| + 1..], c)
  }

  /** Cutting at the separator undoes joining with it, provided no piece
      contains the separator. */
  lemma {:induction false} SplitOnJoinOn(pieces: seq<string>, c: char)
    requires |pieces| >= 1
    requires forall i :: 0 <= i < |pieces| ==> c !in pieces[i]
    ensures SplitOn(JoinOn(pieces, c), c) == pieces
  {
    if |pieces| == 1 {
      TakeUntilJoin(pieces[0], c, []);
    } else {
      var rest := JoinOn(pieces[1..], c);
      TakeUntilJoin(pieces[0], c, rest);
      assert (pieces[0] + [c] + rest)[|pieces[0]| + 1..] == rest;
      SplitOnJoinOn(pieces[1..], c);
    }
  }

  /** The text of a `name=value` parameter. */
  function Assign(name: string, value: string): string {
    name + "=" + value
  }

  /** A `name=value` parameter: the name ends at the first '='. */
  function Param(p: string): (string, string) {
    var name := TakeUntil(p, '=');
    (name, if |name| < |p| then p[|name| + 1..] else "")
  }

  /** The parameters a server reads from a query string. */
  function QueryParams(q: string): seq<(string, string)> {
    if |q| > 0 && q[0] == '?' then
      var parts := SplitOn(q[1..], '&');
      seq(|parts|, i requires 0 <= i < |parts| => Param(parts[i]))
    else []
  }

  lemma ParamOf(name: string, value: string)
    requires '=' !in name
    ensures Param(Assign(name, value)) == (name, value)
  {
    TakeUntilJoin(name, '=', value);
    assert (name + "=" + value)[|name| + 1..] == value;
  }

  lemma SignedDecimalHasNoSeparator(i: int, c: char)
    requires !IsDigit(c) && c != '-'
    ensures c !in SignedDecimal(i)
  {
    if i < 0 {
      assert SignedDecimal(i) == "-" + Decimal(-i);
      DecimalHasNoSeparator(-i, c);
    } else {
      DecimalHasNoSeparator(i, c);
    }
  }

  function ListPieces(num: int, pattern: string, offset: string, order: int): seq<string> {
    [Assign("op", "list"), Assign("num", SignedDecimal(num)), Assign("pattern", pattern),
     Assign("offset", offset), Assign("order", SignedDecimal(order))]
  }

  lemma ListQuerySplit(num: int, pattern: string, offset: string, order: int)
    requires '&' !in pattern && '&' !in offset
    ensures var q := ListQuery(num, pattern, offset, order);
      |q| > 0 && q[0] == '?' && SplitOn(q[1..], '&') == ListPieces(num, pattern, offset, order)
  {
    SignedDecimalHasNoSeparator(num, '&');
    SignedDecimalHasNoSeparator(order, '&');
    var pieces := ListPieces(num, pattern, offset, order);
    forall i | 0 <= i < |pieces|
      ensures '&' !in pieces[i]
    {
    }
    SplitOnJoinOn(pieces, '&');
  }

  /** A query read as its '&'-separated pieces, each split at its '='. */
  lemma QueryParamsOfPieces(q: string, pieces: seq<string>)
    requires |q| > 0 && q[0] == '?' && SplitOn(q[1..], '&') == pieces
    ensures |QueryParams(q)| == |pieces|
    ensures forall i :: 0 <= i < |pieces| ==> QueryParams(q)[i] == Param(pieces[i])
  {
  }

  /** When pattern and offset hold no '&', the list query carries exactly
      the five parameters, in order, with the given values. */
  lemma ListQueryParams(num: int, pattern: string, offset: string, order: int)
    requires '&' !in pattern && '&' !in offset
    ensures var ps := QueryParams(ListQuery(num, pattern, offset, order));
      && |ps| == 5 && ps[0] == ("op", "list") && ps[1] == ("num", SignedDecimal(num))
      && ps[2] == ("pattern", pattern) && ps[3] == ("offset", offset) && ps[4] == ("order", SignedDecimal(order))
  {
    var n, o := SignedDecimal(num), SignedDecimal(order);
    var q := ListQuery(num, pattern, offset, order);
    var parts := ListPieces(num, pattern, offset, order);
    ListQuerySplit(num, pattern, offset, order);
    QueryParamsOfPieces(q, parts);
    ParamOf("op", "list");
    ParamOf("num", n);
    ParamOf("pattern", pattern);
    ParamOf("offset", offset);
    ParamOf("order", o);
    var ps := QueryParams(q);
    assert ps[0] == Param(parts[0]) && ps[1] == Param(parts[1]) && ps[2] == Param(parts[2]);
    assert ps[3] == Param(parts[3]) && ps[4] == Param(parts[4]);
  }

  /** The stat query carries the single parameter `op=stat`. */
  lemma StatQueryParams()
    ensures QueryParams(STAT_QUERY) == [("op", "stat")]
  {
    assert STAT_QUERY[1..] == "op=stat";
    assert "op=stat" == Assign("op", "stat");
    SplitOnJoinOn(["op=stat"], '&');
    ParamOf("op", "stat");
  }

  // ---------------------------------------------------------------------
  // Headers

  function AuthHeader(sign: string): string {
    "Authorization: " + sign
  }

  const JSON_CONTENT_TYPE: string := "Content-Type: application/json"

  // ---------------------------------------------------------------------
  // JSON bodies of the metadata operations

  /** `createFolder`: `op` always, `to_over_write` when the flag is set,
      `biz_attr` when it is non-empty. */
  function CreateFolderFields(toOverWrite: int, bizAttr: string): (m: map<string, Json>)
    ensures m.Keys == {"op"} + (if toOverWrite != 0 then {"to_over_write"} else {})
                             + (if bizAttr != "" then {"biz_attr"} else {})
    ensures m["op"] == Str("create")
    ensures "to_over_write" in m ==> m["to_over_write"] == Int(1)
    ensures "biz_attr" in m ==> m["biz_attr"] == Str(bizAttr)
  {
    var m := map["op" := Str("create")];
    var m := if toOverWrite != 0 then m["to_over_write" := Int(1)] else m;
    if bizAttr != "" then m["biz_attr" := Str(bizAttr)] else m
  }

  /** `update`: `op` always, `biz_attr` when it is non-empty. */
  function UpdateFields(bizAttr: string): (m: map<string, Json>)
    ensures m.Keys == {"op"} + (if bizAttr != "" then {"biz_attr"} else {})
    ensures m["op"] == Str("update")
    ensures "biz_attr" in m ==> m["biz_attr"] == Str(bizAttr)
  {
    var m := map["op" := Str("update")];
    if bizAttr != "" then m["biz_attr" := Str(bizAttr)] else m
  }

  /** `del`: `op` only. */
  function DeleteFields(): (m: map<string, Json>)
    ensures m.Keys == {"op"} && m["op"] == Str("delete")
  {
    map["op" := Str("delete")]
  }

  // ---------------------------------------------------------------------
  // Multipart forms

  lemma NamesAppend(a: seq<FormField>, b: seq<FormField>)
    ensures Names(a + b) == Names(a) + Names(b)
  {
  }

  lemma {:induction false} LookupAppend(a: seq<FormField>, b: seq<FormField>, name: string)
    ensures Lookup(a + b, name) == if Lookup(a, name).Some? then Lookup(a, name) else Lookup(b, name)
  {
    if a == [] {
      assert a + b == b;
    } else {
      assert (a + b)[0] == a[0];
      if a[0].name != name {
        LookupAppend(a[1..], b, name);
        assert (a + b)[1..] == a[1..] + b;
      }
    }
  }

  /** A name no part carries is not found. */
  lemma {:induction false} LookupAbsent(form: seq<FormField>, name: string)
    requires name !in Names(form)
    ensures Lookup(form, name) == None
  {
    if form != [] {
      assert Names(form)[0] == form[0].name;
      assert Names(form[1..]) == Names(form)[1..];
      LookupAbsent(form[1..], name);
    }
  }

  /** No two parts share a name. */
  predicate DistinctNames(form: seq<FormField>) {
    forall i, j :: 0 <= i < j < |form| ==> form[i].name != form[j].name
  }

  /** In a form whose names are distinct, each part is found by its name. */
  lemma {:induction false} LookupAt(form: seq<FormField>, i: nat)
    requires i < |form| && DistinctNames(form)
    ensures Lookup(form, form[i].name) == Some(form[i].value)
  {
    if i > 0 {
      assert form[0].name != form[i].name;
      assert form[1..][i - 1] == form[i];
      LookupAt(form[1..], i - 1);
    }
  }

  /** The form of the one-shot `upload`: `op`, `sha`, `biz_attr` (even when
      empty) and the file itself, in that order. */
  function UploadForm(sha: string, bizAttr: string, srcPath: string): (form: seq<FormField>)
    ensures Names(form) == ["op", "sha", "biz_attr", "filecontent"]
    ensures DistinctNames(form)
    ensures Lookup(form, "op") == Some(Text("upload"))
    ensures Lookup(form, "sha") == Some(Text(sha))
    ensures Lookup(form, "biz_attr") == Some(Text(bizAttr))
    ensures Lookup(form, "filecontent") == Some(FilePart(srcPath))
  {
    var form := [FormField("op", Text("upload")), FormField("sha", Text(sha)),
                 FormField("biz_attr", Text(bizAttr)), FormField("filecontent", FilePart(srcPath))];
    LookupAt(form, 0);
    LookupAt(form, 1);
    LookupAt(form, 2);
    LookupAt(form, 3);
    form
  }

  /** The `slice_size` text: both sides of the `DEFAULT_SLICE_SIZE` test
      format it the same way. */
  function SliceSizeText(sliceSize: nat): string {
    if sliceSize <= DEFAULT_SLICE_SIZE then Decimal(sliceSize) else Decimal(sliceSize)
  }

  /** A part added only under a condition. */
  function OptionalText(name: string, value: string, present: bool): seq<FormField> {
    if present then [FormField(name, Text(value))] else []
  }

  /** Appending an optional part with a new name: the names grow by that
      name when present, the part is found by it, nothing else changes. */
  lemma OptionalTextFacts(a: seq<FormField>, name: string, value: string, present: bool)
    requires name !in Names(a)
    ensures Names(a + OptionalText(name, value, present)) == Names(a) + (if present then [name] else [])
    ensures Lookup(a + OptionalText(name, value, present), name) == (if present then Some(Text(value)) else None)
    ensures forall n :: n != name ==> Lookup(a + OptionalText(name, value, present), n) == Lookup(a, n)
    ensures DistinctNames(a) ==> DistinctNames(a + OptionalText(name, value, present))
  {
    var o := OptionalText(name, value, present);
    NamesAppend(a, o);
    LookupAbsent(a, name);
    LookupAppend(a, o, name);
    forall n | n != name
      ensures Lookup(a + o, n) == Lookup(a, n)
    {
      LookupAppend(a, o, n);
    }
    if DistinctNames(a) && present {
      forall i | 0 <= i < |a|
        ensures a[i].name != name
      {
        assert Names(a)[i] == a[i].name;
      }
    }
  }

  function PrepareHead(fileSize: nat, sha: string): seq<FormField> {
    [FormField("op", Text("upload_slice")), FormField("filesize", Text(Decimal(fileSize))),
     FormField("sha", Text(sha))]
  }

  /** The form of `upload_prepare`. */
  function PrepareForm(fileSize: nat, sha: string, bizAttr: string, session: string, sliceSize: nat)
    : seq<FormField>
  {
    PrepareHead(fileSize, sha)
    + OptionalText("biz_attr", bizAttr, bizAttr != "")
    + OptionalText("session", session, session != "")
    + OptionalText("slice_size", if sliceSize > 0 then SliceSizeText(sliceSize) else "", sliceSize > 0)
  }

  /** The prepare form names `op`, `filesize`, `sha`, then `biz_attr`
      exactly when the biz attribute is non-empty, `session` exactly when
      the session is non-empty and `slice_size` exactly when the slice size
      is positive, in that order and each once. */
  lemma PrepareFormNames(fileSize: nat, sha: string, bizAttr: string, session: string, sliceSize: nat)
    ensures var form := PrepareForm(fileSize, sha, bizAttr, session, sliceSize);
      && Names(form) == ["op", "filesize", "sha"]
                        + (if bizAttr != "" then ["biz_attr"] else [])
                        + (if session != "" then ["session"] else [])
                        + (if sliceSize > 0 then ["slice_size"] else [])
      && DistinctNames(form)
  {
    var h := PrepareHead(fileSize, sha);
    var sizeText := if sliceSize > 0 then SliceSizeText(sliceSize) else "";
    var hb := h + OptionalText("biz_attr", bizAttr, bizAttr != "");
    var hbs := hb + OptionalText("session", session, session != "");
    assert Names(h) == ["op", "filesize", "sha"];
    assert DistinctNames(h);
    OptionalTextFacts(h, "biz_attr", bizAttr, bizAttr != "");
    OptionalTextFacts(hb, "session", session, session != "");
    OptionalTextFacts(hbs, "slice_size", sizeText, sliceSize > 0);
  }

  /** The fixed parts of the prepare form are found under their names,
      holding the operation, the file size (which reads back as the size it
      was rendered from) and the digest. */
  lemma PrepareFormHead(fileSize: nat, sha: string, bizAttr: string, session: string, sliceSize: nat)
    ensures var form := PrepareForm(fileSize, sha, bizAttr, session, sliceSize);
      && Lookup(form, "op") == Some(Text("upload_slice"))
      && Lookup(form, "filesize") == Some(Text(Decimal(fileSize)))
      && ParseDecimal(Decimal(fileSize)) == Some(fileSize)
      && Lookup(form, "sha") == Some(Text(sha))
  {
    var h := PrepareHead(fileSize, sha);
    var sizeText := if sliceSize > 0 then SliceSizeText(sliceSize) else "";
    var o1 := OptionalText("biz_attr", bizAttr, bizAttr != "");
    var o2 := OptionalText("session", session, session != "");
    var o3 := OptionalText("slice_size", sizeText, sliceSize > 0);
    assert PrepareForm(fileSize, sha, bizAttr, session, sliceSize) == h + o1 + o2 + o3;
    assert DistinctNames(h);
    LookupAt(h, 0);
    LookupAt(h, 1);
    LookupAt(h, 2);
    LookupChain(h, o1, o2, o3, "op");
    LookupChain(h, o1, o2, o3, "filesize");
    LookupChain(h, o1, o2, o3, "sha");
    DecimalRoundTrip(fileSize);
  }

  /** A form made of four runs of parts is searched run by run. */
  lemma LookupChain(h: seq<FormField>, a: seq<FormField>, b: seq<FormField>, c: seq<FormField>, name: string)
    ensures Lookup(h + a + b + c, name)
      == if Lookup(h, name).Some? then Lookup(h, name)
         else if Lookup(a, name).Some? then Lookup(a, name)
         else if Lookup(b, name).Some? then Lookup(b, name)
         else Lookup(c, name)
  {
    LookupAppend(h, a, name);
    LookupAppend(h + a, b, name);
    LookupAppend(h + a + b, c, name);
  }

  /** The optional parts of the prepare form are found under their names
      exactly when present, holding what the caller gave. */
  lemma PrepareFormOptional(fileSize: nat, sha: string, bizAttr: string, session: string, sliceSize: nat)
    ensures var form := PrepareForm(fileSize, sha, bizAttr, session, sliceSize);
      && Lookup(form, "biz_attr") == (if bizAttr != "" then Some(Text(bizAttr)) else None)
      && Lookup(form, "session") == (if session != "" then Some(Text(session)) else None)
      && Lookup(form, "slice_size") == (if sliceSize > 0 then Some(Text(Decimal(sliceSize))) else None)
  {
    var h := PrepareHead(fileSize, sha);
    var sizeText := if sliceSize > 0 then SliceSizeText(sliceSize) else "";
    var o1 := OptionalText("biz_attr", bizAttr, bizAttr != "");
    var o2 := OptionalText("session", session, session != "");
    var o3 := OptionalText("slice_size", sizeText, sliceSize > 0);
    assert PrepareForm(fileSize, sha, bizAttr, session, sliceSize) == h + o1 + o2 + o3;
    assert Names(h) == ["op", "filesize", "sha"];
    LookupAbsent(h, "biz_attr");
    LookupAbsent(h, "session");
    LookupAbsent(h, "slice_size");
    LookupChain(h, o1, o2, o3, "biz_attr");
    LookupChain(h, o1, o2, o3, "session");
    LookupChain(h, o1, o2, o3, "slice_size");
    assert sizeText == if sliceSize > 0 then Decimal(sliceSize) else "";
  }

  /** The form of one slice in `upload_data`: the offset it starts at, the
      session, and the bytes as an in-memory part named "data". */
  function SliceForm(pos: nat, session: string, payload: seq<byte>): seq<FormField> {
    [FormField("op", Text("upload_slice")), FormField("offset", Text(Decimal(pos))),
     FormField("session", Text(session)), FormField("filecontent", BufferPart("data", payload))]
  }

  /** A slice form names its four parts once each; its offset reads back as
      the position it was rendered from, and it carries the session and the
      bytes. */
  lemma SliceFormShape(pos: nat, session: string, payload: seq<byte>)
    ensures var form := SliceForm(pos, session, payload);
      && Names(form) == ["op", "offset", "session", "filecontent"]
      && DistinctNames(form)
      && Lookup(form, "op") == Some(Text("upload_slice"))
      && Lookup(form, "offset") == Some(Text(Decimal(pos)))
      && ParseDecimal(Decimal(pos)) == Some(pos)
      && Lookup(form, "session") == Some(Text(session))
      && Lookup(form, "filecontent") == Some(BufferPart("data", payload))
  {
    var form := SliceForm(pos, session, payload);
    DecimalRoundTrip(pos);
    LookupAt(form, 0);
    LookupAt(form, 1);
    LookupAt(form, 2);
    LookupAt(form, 3);
  }

  // ---------------------------------------------------------------------
  // Requests

  /** The request `upload` sends. */
  function UploadRequest(url: string, sign: string, sha: string, bizAttr: string, srcPath: string): Request {
    Request(url, true, [AuthHeader(sign)], Form(UploadForm(sha, bizAttr, srcPath)))
  }

  /** The request `upload_prepare` sends. */
  function PrepareRequest(url: string, sign: string, fileSize: nat, sha: string, bizAttr: string,
                          session: string, sliceSize: nat): Request {
    Request(url, true, [AuthHeader(sign)], Form(PrepareForm(fileSize, sha, bizAttr, session, sliceSize)))
  }

  function CreateFolderRequest(url: string, sign: string, toOverWrite: int, bizAttr: string): Request {
    Request(url, true, [AuthHeader(sign), JSON_CONTENT_TYPE], JsonFields(CreateFolderFields(toOverWrite, bizAttr)))
  }

  function ListRequest(url: string, sign: string, num: int, pattern: string, offset: string, order: int): Request {
    Request(url + ListQuery(num, pattern, offset, order), false, [AuthHeader(sign)], NoBody)
  }

  function UpdateRequest(url: string, sign: string, bizAttr: string): Request {
    Request(url, true, [AuthHeader(sign), JSON_CONTENT_TYPE], JsonFields(UpdateFields(bizAttr)))
  }

  function StatRequest(url: string, sign: string): Request {
    Request(url + STAT_QUERY, false, [AuthHeader(sign)], NoBody)
  }

  function DeleteRequest(url: string, sign: string): Request {
    Request(url, true, [AuthHeader(sign), JSON_CONTENT_TYPE], JsonFields(DeleteFields()))
  }
}
