/** What the client puts on the wire and what it makes of the reply: JSON
    values as the jsoncpp accessors see them, request descriptions (the
    libcurl form and header plumbing reduced to values), the write-callback
    buffer, the normalisation at the end of `sendRequest`, and the
    environment the client cannot see (files, SHA-1, signer, clock,
    network, JSON parser). */
module Wire {
  import opened Common
  import opened ContentHash

  /** Result codes defined in Cosapi.h (not part of this model): only their
      being nonzero matters to the client's logic. */
  const COSAPI_NETWORK_ERROR: int := -2
  const COSAPI_FILE_NOT_EXISTS: int := -3

  const NETWORK_ERROR_MESSAGE: string := "net work err..."
  const FILE_NOT_EXISTS_MESSAGE: string := "file not exist or can not be read..."

  // ---------------------------------------------------------------------
  // JSON values

  datatype Json =
    | Null
    | Bool(b: bool)
    | Int(i: int)
    | Str(s: string)
    | Array(items: seq<Json>)
    | Object(members: map<string, Json>)

  /** `v[key]`: the member, or null when there is none. */
  function Member(v: Json, key: string): Json {
    if v.Object? && key in v.members then v.members[key] else Null
  }

  /** `v.isMember(key)` */
  predicate IsMember(v: Json, key: string) {
    v.Object? && key in v.members
  }

  /** `asInt()` on the kinds it converts; other kinds and values outside
      the C `int` range read as 0. */
  function AsInt(v: Json): (n: int)
    ensures IsCInt(n)
  {
    match v
    case Int(i) => if IsCInt(i) then i else 0
    case Bool(b) => if b then 1 else 0
    case _ => 0
  }

  /** `asUInt64()` on the kinds it converts; other kinds and values out of
      range read as 0. */
  function AsUInt64(v: Json): (n: nat)
    ensures n < UINT64_LIMIT
  {
    match v
    case Int(i) => if 0 <= i < UINT64_LIMIT then i else 0
    case Bool(b) => if b then 1 else 0
    case _ => 0
  }

  /** `asString()` on the kinds it converts; other kinds read as "". */
  function AsString(v: Json): string {
    match v
    case Str(s) => s
    case Int(i) => SignedDecimal(i)
    case Bool(b) => if b then "true" else "false"
    case _ => ""
  }

  // ---------------------------------------------------------------------
  // Requests

  /** The content of one multipart form part: copied text
      (`CURLFORM_COPYCONTENTS`), a file curl reads itself (`CURLFORM_FILE`),
      or an in-memory buffer with a file name (`CURLFORM_BUFFER`). */
  datatype FormValue =
    | Text(text: string)
    | FilePart(path: string)
    | BufferPart(filename: string, bytes: seq<byte>)

  datatype FormField = FormField(name: string, value: FormValue)

  /** A POST body: none, a JSON object (serialised by `Json::FastWriter`,
      which is not part of this model), or a multipart form. */
  datatype Body = NoBody | JsonFields(fields: map<string, Json>) | Form(parts: seq<FormField>)

  datatype Request = Request(url: string, isPost: bool, headers: seq<string>, body: Body)

  function Names(form: seq<FormField>): (names: seq<string>)
    ensures |names| == |form|
    ensures forall i {:trigger names[i]} :: 0 <= i < |form| ==> names[i] == form[i].name
  {
    if form == [] then [] else [form[0].name] + Names(form[1..])
  }

  /** The value of the first part with this name. */
  function Lookup(form: seq<FormField>, name: string): Option<FormValue> {
    if form == [] then None
    else if form[0].name == name then Some(form[0].value)
    else Lookup(form[1..], name)
  }

  // ---------------------------------------------------------------------
  // The response buffer

  /** What `response_str += tmp` appends for one chunk: `tmp` is a
      NUL-terminated copy, so only the bytes before the first NUL. */
  function UpToNul(chunk: string): string {
    TakeUntil(chunk, '\0')
  }

  /** The buffer contents after a reply arrives in `chunks`, starting from
      an empty buffer. */
  function Received(chunks: seq<string>): string {
    if chunks == [] then "" else Received(chunks[..|chunks| - 1]) + UpToNul(chunks[|chunks| - 1])
  }

  /** A reply without NUL bytes is received whole, however it is split. */
  lemma {:induction false} ReceivedWithoutNul(chunks: seq<string>)
    requires forall i :: 0 <= i < |chunks| ==> '\0' !in chunks[i]
    ensures Received(chunks) == Concat(chunks)
  {
    if chunks != [] {
      var last := chunks[|chunks| - 1];
      ReceivedWithoutNul(chunks[..|chunks| - 1]);
      TakeUntilJoin(last, '\0', "");
    }
  }

  // ---------------------------------------------------------------------
  // The client's result state

  /** The four result fields of a client object: `response_str`, `retCode`,
      `retMsg`, `retJson`. */
  datatype ClientState = ClientState(responseStr: string, retCode: int, retMsg: string, retJson: Json)

  /** jsoncpp's `clear()`: members and elements go, the kind stays. */
  function Cleared(v: Json): Json {
    match v
    case Object(_) => Object(map[])
    case Array(_) => Array([])
    case _ => Null
  }

  predicate IsEmptyJson(v: Json) {
    v == Null || v == Object(map[]) || v == Array([])
  }

  /** `reset()` */
  function Reset(st: ClientState): ClientState {
    ClientState("", 0, "", Cleared(st.retJson))
  }

  /** After `reset()` the buffer and message are empty, the code is 0 and
      the JSON value holds nothing; resetting twice is resetting once. */
  lemma ResetClears(st: ClientState)
    ensures var r := Reset(st);
      r.responseStr == "" && r.retCode == 0 && r.retMsg == "" && IsEmptyJson(r.retJson)
    ensures Reset(Reset(st)) == Reset(st)
  {
  }

  /** What a non-const `v[key]` leaves in `v`: a null value becomes an
      object, and a missing key gets a null member. Every member reads as
      before. On an array or a scalar jsoncpp throws, which is not modelled;
      the value is kept. */
  function Subscripted(v: Json, key: string): (r: Json)
    ensures forall k :: Member(r, k) == Member(v, k)
    ensures v.Null? ==> r.Object? && r.members.Keys == {key}
    ensures v.Object? ==> r.Object? && r.members.Keys == v.members.Keys + {key}
    ensures !v.Null? && !v.Object? ==> r == v
  {
    match v
    case Null => Object(map[key := Null])
    case Object(m) => if key in m then v else Object(m[key := Null])
    case _ => v
  }

  /** The value `retJson` holds once `sendRequest` has read `code` and
      `message` out of the parsed reply `j`: the reply itself, with a null
      member for each of the two keys it lacks (a null reply becomes an
      object holding just those two). Every member reads as in `j`. */
  function StoredReply(j: Json): (r: Json)
    ensures forall k :: Member(r, k) == Member(j, k)
    ensures j.Null? ==> r.Object? && r.members.Keys == {"code", "message"}
    ensures j.Object? ==> r.Object? && r.members.Keys == j.members.Keys + {"code", "message"}
    ensures !j.Null? && !j.Object? ==> r == j
  {
    Subscripted(Subscripted(j, "code"), "message")
  }

  /** The tail of `sendRequest`: a body that parses becomes `retJson`, with
      the members the two reads add, and gives the code and message it
      carries; one that does not gives the network-error pair and leaves
      `retJson` as it was. */
  function Normalize(st: ClientState, parsed: Option<Json>): ClientState {
    match parsed
    case Some(j) => st.(retCode := AsInt(Member(j, "code")), retMsg := AsString(Member(j, "message")), retJson := StoredReply(j))
    case None => st.(retCode := COSAPI_NETWORK_ERROR, retMsg := NETWORK_ERROR_MESSAGE)
  }

  // ---------------------------------------------------------------------
  // The environment

  /** Everything outside the client object: the file system (`access` and
      `ifstream` agree: `None` is a path that cannot be read), SHA-1, the two
      signers, the clock, the network (the chunks the write callback receives
      for a request) and the JSON parser. */
  datatype Env = Env(
    files: string -> Option<seq<byte>>,
    sha1: Sha1,
    signMore: (nat, string, string, nat, string) -> string,
    signOnce: (nat, string, string, string, string) -> string,
    now: nat,
    net: Request -> seq<string>,
    parse: string -> Option<Json>)

  /** `sendRequest`: the reply is appended to the buffer chunk by chunk,
      then the whole buffer is parsed and normalised. */
  function Exchange(env: Env, st: ClientState, req: Request): ClientState {
    var buffer := st.responseStr + Received(env.net(req));
    Normalize(st.(responseStr := buffer), env.parse(buffer))
  }

  /** A request issued the way every operation issues one: `reset()`, then
      `sendRequest`. */
  function Issue(env: Env, st: ClientState, req: Request): ClientState {
    Exchange(env, Reset(st), req)
  }

  /** The code the server's reply to `req` stands for, read off the reply
      alone. */
  function ReplyCode(env: Env, req: Request): int {
    match env.parse(Received(env.net(req)))
    case Some(j) => AsInt(Member(j, "code"))
    case None => COSAPI_NETWORK_ERROR
  }

  /** The message the server's reply to `req` stands for, read off the
      reply alone. */
  function ReplyMessage(env: Env, req: Request): string {
    match env.parse(Received(env.net(req)))
    case Some(j) => AsString(Member(j, "message"))
    case None => NETWORK_ERROR_MESSAGE
  }

  /** The code, the message and the buffer after issuing a request are the
      reply's own, whatever the state before, and so is the JSON value (with
      the members reading `code` and `message` adds) when the reply parses. */
  lemma IssueReply(env: Env, st: ClientState, req: Request)
    ensures Issue(env, st, req).retCode == ReplyCode(env, req)
    ensures Issue(env, st, req).retMsg == ReplyMessage(env, req)
    ensures Issue(env, st, req).responseStr == Received(env.net(req))
    ensures env.parse(Received(env.net(req))).Some? ==>
      Issue(env, st, req).retJson == StoredReply(env.parse(Received(env.net(req))).value)
  {
    assert "" + Received(env.net(req)) == Received(env.net(req));
  }

  /** After issuing a request the buffer holds exactly the reply, the code is
      the reply's own, and the rest follows the parse: code and message of a
      parsed body over the stored reply, or the network error over an
      emptied `retJson`. The state
      before the call shows through only in that emptied `retJson`. */
  lemma IssueOutcome(env: Env, st: ClientState, req: Request)
    ensures var r := Issue(env, st, req);
      && r.responseStr == Received(env.net(req))
      && r.retCode == ReplyCode(env, req)
      && (env.parse(r.responseStr).Some? ==>
            var j := env.parse(r.responseStr).value;
            r.retMsg == AsString(Member(j, "message")) && r.retJson == StoredReply(j))
      && (env.parse(r.responseStr).None? ==>
            r.retMsg == NETWORK_ERROR_MESSAGE && r.retJson == Cleared(st.retJson))
  {
    assert "" + Received(env.net(req)) == Received(env.net(req));
  }
}
