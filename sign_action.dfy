/**
 * One sign-in (`client_sign`): builds the sign request from the fixed client
 * fields and the forum's values, signs it with `encodeData`, posts it through
 * the transport, and classifies the reply by its `error_code`. Whatever goes
 * wrong inside the `try` is returned as an `{'error': ...}` value instead of
 * being raised. Signing the request comes before the `try`; it cannot fail on
 * the strings modelled here.
 */
module SignAction {
  import Text
  import opened JsonValue
  import Signer
  import Transport

  /** `SIGN_DATA`, the fields every sign request starts from, in the order of
      its dict literal. */
  const BaseFields: seq<(string, string)> :=
    [ ("_client_type", "2"),
      ("_client_version", "9.7.8.0"),
      ("_phone_imei", "000000000000000"),
      ("model", "MI+5"),
      ("net_type", "1") ]

  /** The form fields of a sign request: a copy of `SIGN_DATA` updated with the
      account, the forum and the timestamp. The forum's `id` and `name` and the
      `tbs` token are JSON values; the signature sees their `str()`. */
  function SignRequest(bduss: string, tbs: Json, fid: Json, kw: Json, clock: int): seq<(string, string)> {
    BaseFields
    + [ ("BDUSS", bduss), ("fid", FieldText(fid)), ("kw", FieldText(kw)),
        ("tbs", FieldText(tbs)), ("timestamp", Text.IntToString(clock)) ]
  }

  /** What `encodeData` makes of the sign request: the signed form fields. */
  function SignForm(bduss: string, tbs: Json, fid: Json, kw: Json, clock: int, digest: string -> seq<Signer.byte>)
    : map<string, string>
  {
    Signer.SignedEntries(SignRequest(bduss, tbs, fid, kw, clock), digest)
  }

  /** Every field of the sign request reaches the signed form unchanged. */
  lemma SignFieldAt(bduss: string, tbs: Json, fid: Json, kw: Json, clock: int,
                    digest: string -> seq<Signer.byte>, i: nat)
    requires i < 10
    ensures var pairs := SignRequest(bduss, tbs, fid, kw, clock);
      var m := SignForm(bduss, tbs, fid, kw, clock, digest);
      pairs[i].0 in m && m[pairs[i].0] == pairs[i].1
  {
    var pairs := SignRequest(bduss, tbs, fid, kw, clock);
    Signer.SignedEntriesHold(pairs, digest, i);
  }

  /** The signed sign request carries the account, the forum's id and name and
      the `tbs` token, each rendered by `str()`. */
  lemma SignFormFields(bduss: string, tbs: Json, fid: Json, kw: Json, clock: int,
                       digest: string -> seq<Signer.byte>)
    ensures var m := SignForm(bduss, tbs, fid, kw, clock, digest);
      && "BDUSS" in m && m["BDUSS"] == bduss
      && "fid" in m && m["fid"] == FieldText(fid)
      && "kw" in m && m["kw"] == FieldText(kw)
      && "tbs" in m && m["tbs"] == FieldText(tbs)
  {
    SignFieldAt(bduss, tbs, fid, kw, clock, digest, 5);
    SignFieldAt(bduss, tbs, fid, kw, clock, digest, 6);
    SignFieldAt(bduss, tbs, fid, kw, clock, digest, 7);
    SignFieldAt(bduss, tbs, fid, kw, clock, digest, 8);
  }

  /** The signed dict `encodeData` returns for a sign request passes the
      signature recomputation over its other entries. A `null` id, name or
      token is hashed as `None`, although such a field is not posted. */
  lemma SignFormVerifies(bduss: string, tbs: Json, fid: Json, kw: Json, clock: int,
                         digest: string -> seq<Signer.byte>)
    ensures var keys := Signer.Inserted([], map[], SignRequest(bduss, tbs, fid, kw, clock)) + [Signer.SignField];
      var m := SignForm(bduss, tbs, fid, kw, clock, digest);
      Signer.Distinct(keys) && (forall k :: k in keys <==> k in m) && Signer.Verifies(keys, m, digest)
  {
    var pairs := SignRequest(bduss, tbs, fid, kw, clock);
    assert forall a :: 0 <= a < |pairs| ==> pairs[a].0 != Signer.SignField;
    Signer.SignedEntriesVerify(pairs, digest);
  }

  /** How a sign reply is judged, which is what the log line reports. */
  datatype Verdict =
    | Signed(rank: Json)            // `error_code` "0": the `user_sign_rank`
    | AlreadySigned(message: Json)  // `error_code` "160002"
    | Failed(message: Json)         // any other `error_code`, or none
    | Raised(exc: Exc)              // an exception inside the `try`

  /** What `client_sign` returns: the decoded reply itself, or
      `{'error': str(e)}` for the exception `e` it caught. */
  datatype SignResult = Reply(result: Json) | ErrorDict(exc: Exc)

  const AlreadySignedDefault: string := "今日已签到"
  const UnknownErrorDefault: string := "未知错误"

  /** The classification of a transport reply (the `if`/`elif`/`else` on
      `result.get('error_code')`). `.get` raises on a reply that is not a
      dict, and `result['user_info']['user_sign_rank']` raises when a success
      reply lacks either key. */
  function Classify(reply: Result<Json>): Verdict {
    match reply
    case Err(e) => Raised(e)
    case Ok(result) =>
      match Get(result, "error_code", JNull)
      case Err(e) => Raised(e)
      case Ok(code) =>
        if code == JStr("0") then
          match Index(result, "user_info")
          case Err(e) => Raised(e)
          case Ok(info) =>
            match Index(info, "user_sign_rank")
            case Err(e) => Raised(e)
            case Ok(rank) => Signed(rank)
        else if code == JStr("160002") then
          AlreadySigned(Get(result, "error_msg", JStr(AlreadySignedDefault)).value)
        else
          Failed(Get(result, "error_msg", JStr(UnknownErrorDefault)).value)
  }

  /** `client_sign`'s return value for a reply with verdict `v`: the reply
      unless something was raised. */
  function Returned(reply: Result<Json>, v: Verdict): SignResult
    requires v.Raised? || reply.Ok?
  {
    if v.Raised? then ErrorDict(v.exc) else Reply(reply.value)
  }

  /** What `client_sign` returns for the reply its request received. */
  function Outcome(net: nat -> Transport.Attempt, decode: string -> Option<Json>): SignResult {
    var reply := Transport.JsonReply(net, decode);
    Returned(reply, Classify(reply))
  }

  /** `client_sign(bduss, tbs, fid, kw, idx, count)`: posts the signed sign
      request and judges the reply; `idx` and `count` only feed the log line.
      Nothing raised inside the `try` escapes: a transport failure, a reply
      that is not a dict and a success reply without a rank all come back as
      an error value. */
  method ClientSign(bduss: string, tbs: Json, fid: Json, kw: Json, idx: int, count: int,
                    clock: int, net: nat -> Transport.Attempt,
                    decode: string -> Option<Json>, digest: string -> seq<Signer.byte>)
    returns (r: SignResult, verdict: Verdict, form: map<string, string>)
    ensures form == SignForm(bduss, tbs, fid, kw, clock, digest)
    ensures verdict == Classify(Transport.JsonReply(net, decode))
    ensures verdict.Raised? || Transport.JsonReply(net, decode).Ok?
    ensures r == Returned(Transport.JsonReply(net, decode), verdict) == Outcome(net, decode)
  {
    form := Signer.SignedRequest(SignRequest(bduss, tbs, fid, kw, clock), digest);
    var reply, _, _ := Transport.GetJsonResponse(net, decode);
    if reply.Err? {
      verdict := Raised(reply.exc);
    } else {
      var result := reply.value;
      var code := Get(result, "error_code", JNull);
      if code.Err? {
        verdict := Raised(code.exc);
      } else if code.value == JStr("0") {
        var info := Index(result, "user_info");
        var rank := if info.Ok? then Index(info.value, "user_sign_rank") else info;
        verdict := if rank.Ok? then Signed(rank.value) else Raised(rank.exc);
      } else if code.value == JStr("160002") {
        verdict := AlreadySigned(Get(result, "error_msg", JStr(AlreadySignedDefault)).value);
      } else {
        verdict := Failed(Get(result, "error_msg", JStr(UnknownErrorDefault)).value);
      }
    }
    if verdict.Raised? {
      r := ErrorDict(verdict.exc);
    } else {
      r := Reply(reply.value);
    }
  }

  /** A sign-in counts as successful exactly when the reply is a dict whose
      `error_code` is the string "0" and whose `user_info` is a dict holding
      `user_sign_rank`; the verdict carries that rank. */
  lemma SignedExactly(reply: Result<Json>)
    ensures Classify(reply).Signed? <==>
      && reply.Ok? && reply.value.JObj?
      && "error_code" in reply.value.fields && reply.value.fields["error_code"] == JStr("0")
      && "user_info" in reply.value.fields && reply.value.fields["user_info"].JObj?
      && "user_sign_rank" in reply.value.fields["user_info"].fields
    ensures Classify(reply).Signed? ==>
      Classify(reply).rank == reply.value.fields["user_info"].fields["user_sign_rank"]
  {
  }

  /** For a dict reply, the code alone decides between already signed and
      failed, and the message falls back to the fixed default text when the
      reply has no `error_msg`. A missing `error_code` is a failure. */
  lemma CodeDecides(fields: map<string, Json>)
    ensures var v := Classify(Ok(JObj(fields)));
      var code := if "error_code" in fields then fields["error_code"] else JNull;
      var msg := if "error_msg" in fields then Some(fields["error_msg"]) else None;
      && (v.AlreadySigned? <==> code == JStr("160002"))
      && (v.Failed? <==> code != JStr("0") && code != JStr("160002"))
      && (v.AlreadySigned? ==> v.message == (if msg.Some? then msg.value else JStr(AlreadySignedDefault)))
      && (v.Failed? ==> v.message == (if msg.Some? then msg.value else JStr(UnknownErrorDefault)))
  {
  }

  /** `client_sign` returns an error value exactly when the transport failed,
      the reply is not a dict, or a success reply lacks `user_info` or its
      `user_sign_rank`; otherwise it returns the reply unchanged, whatever its
      code. */
  lemma ErrorValueExactly(reply: Result<Json>)
    ensures var v := Classify(reply);
      && (v.Raised? <==>
            || reply.Err?
            || !reply.value.JObj?
            || (Get(reply.value, "error_code", JNull) == Ok(JStr("0")) && !Classify(reply).Signed?))
      && (v.Raised? && reply.Err? ==> v.exc == reply.exc)
      && (v.Raised? && reply.Ok? && !reply.value.JObj? ==> v.exc == AttributeError)
      && (!v.Raised? ==> Returned(reply, v) == Reply(reply.value))
  {
  }

  /** A success code without `user_info` still ends as an error value, the
      `KeyError` of the lookup. */
  lemma SuccessWithoutUserInfo(fields: map<string, Json>)
    requires "error_code" in fields && fields["error_code"] == JStr("0")
    requires "user_info" !in fields
    ensures Classify(Ok(JObj(fields))) == Raised(KeyError("user_info"))
    ensures Returned(Ok(JObj(fields)), Classify(Ok(JObj(fields)))) == ErrorDict(KeyError("user_info"))
  {
  }
}
