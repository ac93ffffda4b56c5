/**
 * The batch driver (`main`): the credential list read from the `BDUSS`
 * setting, `validate_bduss`, `get_tbs`, and the loops over accounts and over
 * each account's followed forums, with their pauses.
 *
 * Pauses are recorded by where they happen: one `smart_delay` before every
 * forum, and an extra pause before the forums at positions divisible by 10.
 */
module Driver {
  import Text
  import opened JsonValue
  import Signer
  import Transport
  import Collector
  import SignAction

  /** `validate_bduss`: longer than 20 characters and free of '='. */
  predicate ValidBduss(b: string) {
    |b| > 20 && '=' !in b
  }

  /** The `Cookie` header `get_tbs` sends. */
  function Cookie(bduss: string): string {
    "BDUSS=" + bduss
  }

  /** A valid credential is read back intact from its cookie: splitting the
      cookie at '=' gives the name and the credential, because a valid
      credential holds no '='. */
  lemma CookieRoundTrip(bduss: string)
    requires ValidBduss(bduss)
    ensures Text.Split(Cookie(bduss), '=') == ["BDUSS", bduss]
  {
    var c := Cookie(bduss);
    assert c[5] == '=' && "BDUSS" == c[..5] && '=' !in c[..5];
    Text.IndexOfFirst(c, '=', 5);
    assert c[6..] == bduss;
  }

  /** The credentials among `pieces`: each piece stripped, kept when valid;
      the comprehension filters, so it never yields more than it reads. */
  function Credentials(pieces: seq<string>): (creds: seq<string>)
    ensures |creds| <= |pieces|
  {
    if pieces == [] then []
    else
      var b := Text.Strip(pieces[0]);
      (if ValidBduss(b) then [b] else []) + Credentials(pieces[1..])
  }

  /** `[b.strip() for b in bduss_env.split('#') if validate_bduss(b.strip())]` */
  function BdussList(env: string): seq<string> {
    Credentials(Text.Split(env, '#'))
  }

  /** The credentials of a concatenation are those of each part, in order. */
  lemma {:induction false} CredentialsAppend(a: seq<string>, b: seq<string>)
    ensures Credentials(a + b) == Credentials(a) + Credentials(b)
  {
    if a != [] {
      assert (a + b)[0] == a[0] && (a + b)[1..] == a[1..] + b;
      CredentialsAppend(a[1..], b);
      var head := if ValidBduss(Text.Strip(a[0])) then [Text.Strip(a[0])] else [];
      assert Credentials(a + b) == head + Credentials(a[1..] + b);
      assert Credentials(a) == head + Credentials(a[1..]);
    } else {
      assert a + b == b;
    }
  }

  /** A piece contributes its stripped text exactly when that text is valid. */
  lemma CredentialOfPiece(p: string)
    ensures Credentials([p]) == (if ValidBduss(Text.Strip(p)) then [Text.Strip(p)] else [])
  {
    assert [p][1..] == [];
  }

  /** Every listed credential is valid, already stripped and free of '#'. */
  lemma {:induction false} CredentialsSound(pieces: seq<string>)
    requires forall k :: 0 <= k < |pieces| ==> '#' !in pieces[k]
    ensures forall b :: b in Credentials(pieces) ==>
      ValidBduss(b) && Text.Strip(b) == b && '#' !in b
  {
    if pieces != [] {
      var p := pieces[0];
      var b := Text.Strip(p);
      Text.StripIdempotent(p);
      Text.StripShape(p);
      assert '#' !in b by {
        var i := |p| - |Text.StripLeft(p)|;
        assert b == p[i..i + |b|];
        assert forall c :: c in b ==> c in p;
      }
      CredentialsSound(pieces[1..]);
    }
  }

  /** The list read from a setting never holds an invalid or unstripped
      credential. */
  lemma BdussListSound(env: string)
    ensures forall b :: b in BdussList(env) ==>
      ValidBduss(b) && Text.Strip(b) == b && '#' !in b
  {
    CredentialsSound(Text.Split(env, '#'));
  }

  /** Credentials written out joined by '#' are read back as they were, in the
      same order. */
  lemma {:induction false} BdussListJoin(bs: seq<string>)
    requires |bs| >= 1
    requires forall k :: 0 <= k < |bs| ==> ValidBduss(bs[k]) && Text.Strip(bs[k]) == bs[k] && '#' !in bs[k]
    ensures BdussList(Text.Join(bs, '#')) == bs
  {
    Text.SplitJoin(bs, '#');
    KeptAll(bs);
  }

  lemma {:induction false} KeptAll(bs: seq<string>)
    requires forall k :: 0 <= k < |bs| ==> ValidBduss(bs[k]) && Text.Strip(bs[k]) == bs[k]
    ensures Credentials(bs) == bs
  {
    if bs != [] {
      KeptAll(bs[1..]);
    }
  }

  /** An empty setting yields no credential, so the early return of `main`
      on an empty setting and its return on an empty list agree. */
  lemma EmptySettingNoAccounts()
    ensures BdussList("") == []
  {
    assert Text.Split("", '#') == [""];
  }

  /** What `get_tbs` returns or raises for the reply of the tbs endpoint. */
  function TbsOf(reply: Result<Json>): Result<Json> {
    match reply
    case Err(e) => Err(e)
    case Ok(result) => Index(result, "tbs")
  }

  /** `get_tbs` yields a token exactly when the reply is a dict holding `tbs`;
      otherwise the failure of the transport, or the `KeyError` or
      `TypeError` of the look-up, is raised to the caller. */
  lemma TbsExactly(reply: Result<Json>)
    ensures TbsOf(reply).Ok? <==> reply.Ok? && reply.value.JObj? && "tbs" in reply.value.fields
    ensures TbsOf(reply).Ok? ==> TbsOf(reply).value == reply.value.fields["tbs"]
    ensures reply.Err? ==> TbsOf(reply) == reply
  {
  }

  /** `get_tbs(bduss)`: one JSON request carrying the account's cookie, then
      `result['tbs']`. */
  method GetTbs(bduss: string, net: nat -> Transport.Attempt, decode: string -> Option<Json>)
    returns (tbs: Result<Json>, cookie: string)
    ensures tbs == TbsOf(Transport.JsonReply(net, decode))
    ensures cookie == Cookie(bduss)
    ensures ValidBduss(bduss) ==> Text.Split(cookie, '=') == ["BDUSS", bduss]
  {
    cookie := Cookie(bduss);
    if ValidBduss(bduss) {
      CookieRoundTrip(bduss);
    }
    var result, _, _ := Transport.GetJsonResponse(net, decode);
    if result.Err? {
      tbs := result;
    } else {
      tbs := Index(result.value, "tbs");
    }
  }

  /** What one account's sign requests are made of: its credential and `tbs`
      token, the exchange of the sign request for each 0-based forum index,
      the JSON decoder and the digest. */
  datatype Signing = Signing(bduss: string, tbs: Json, signNet: nat -> Transport.Exchange,
                             decode: string -> Option<Json>, digest: string -> seq<Signer.byte>)

  /** One `client_sign` call: the forum's arguments, the signed form it posted
      and what it returned. */
  datatype SignCall = SignCall(fid: Json, kw: Json, idx: int, count: int,
                               form: map<string, string>, result: SignAction.SignResult)

  /** `forum['id']` then `forum['name']`: both values, or the first exception. */
  function ForumKeys(forum: Json): Result<(Json, Json)> {
    match Index(forum, "id")
    case Err(e) => Err(e)
    case Ok(fid) =>
      match Index(forum, "name")
      case Err(e) => Err(e)
      case Ok(kw) => Ok((fid, kw))
  }

  /** How many forums, from the front, have both keys: the loop signs these
      and stops at the next one. */
  function Reached(forums: seq<Json>): nat {
    if forums == [] || ForumKeys(forums[0]).Err? then 0 else 1 + Reached(forums[1..])
  }

  /** `Reached` is the position of the first forum missing a key, or the
      length of the list when there is none. */
  lemma {:induction false} ReachedFirstMissing(forums: seq<Json>)
    ensures Reached(forums) <= |forums|
    ensures forall i :: 0 <= i < Reached(forums) ==> ForumKeys(forums[i]).Ok?
    ensures Reached(forums) < |forums| ==> ForumKeys(forums[Reached(forums)]).Err?
  {
    if forums != [] && ForumKeys(forums[0]).Ok? {
      ReachedFirstMissing(forums[1..]);
      forall i | 0 < i < Reached(forums) ensures ForumKeys(forums[i]).Ok? {
        assert forums[i] == forums[1..][i - 1];
      }
    }
  }

  lemma {:induction false} ReachedAt(forums: seq<Json>, n: nat)
    requires n <= |forums|
    requires forall i :: 0 <= i < n ==> ForumKeys(forums[i]).Ok?
    requires n < |forums| ==> ForumKeys(forums[n]).Err?
    ensures Reached(forums) == n
  {
    if n > 0 {
      assert ForumKeys(forums[0]).Ok?;
      forall i | 0 <= i < n - 1 ensures ForumKeys(forums[1..][i]).Ok? {
        assert forums[1..][i] == forums[i + 1];
      }
      ReachedAt(forums[1..], n - 1);
    }
  }

  /** The `client_sign` call for the forum at 0-based index `i`. */
  function CallFor(g: Signing, forums: seq<Json>, i: nat): SignCall
    requires i < |forums| && ForumKeys(forums[i]).Ok?
  {
    var keys := ForumKeys(forums[i]).value;
    var ex := g.signNet(i);
    SignCall(keys.0, keys.1, i, |forums|,
             SignAction.SignForm(g.bduss, g.tbs, keys.0, keys.1, ex.clock, g.digest),
             SignAction.Outcome(ex.net, g.decode))
  }

  /** The calls made for the first `n` forums, in list order. */
  function ForumCalls(g: Signing, forums: seq<Json>, n: nat): (calls: seq<SignCall>)
    requires n <= |forums|
    requires forall i :: 0 <= i < n ==> ForumKeys(forums[i]).Ok?
    ensures |calls| == n
  {
    seq(n, i requires 0 <= i < n => CallFor(g, forums, i))
  }

  /** One call per forum, in list order: the `i`-th call passes forum `i`'s
      `id` and `name`, `idx = i` and `count = len(forums)`, posts the form
      signed with the account's credential and token, and returns what
      `client_sign` makes of that request's reply. */
  lemma ForumCallAt(g: Signing, forums: seq<Json>, n: nat, i: nat)
    requires n <= |forums|
    requires forall j :: 0 <= j < n ==> ForumKeys(forums[j]).Ok?
    requires i < n
    ensures |ForumCalls(g, forums, n)| == n
    ensures ForumCalls(g, forums, n)[i] == CallFor(g, forums, i)
  {
  }

  /** The 1-based positions up to `n` that get the extra pause. */
  function Multiples(n: nat): seq<nat> {
    if n == 0 then [] else Multiples(n - 1) + (if n % 10 == 0 then [n] else [])
  }

  /** The extra pause comes exactly at the positions divisible by 10, once
      each, in increasing order: `n / 10` of them among the first `n`. */
  lemma {:induction false} MultiplesExactly(n: nat)
    ensures forall p :: p in Multiples(n) <==> 1 <= p <= n && p % 10 == 0
    ensures |Multiples(n)| == n / 10
    ensures forall i, j :: 0 <= i < j < |Multiples(n)| ==> Multiples(n)[i] < Multiples(n)[j]
  {
    if n > 0 {
      MultiplesExactly(n - 1);
      var m := Multiples(n - 1);
      assert forall i :: 0 <= i < |m| ==> m[i] < n by {
        forall i | 0 <= i < |m| ensures m[i] < n {
          assert m[i] in m;
        }
      }
    }
  }

  /** What the per-forum loop did: the sign calls, the number of
      `smart_delay` pauses, the positions of the extra pauses, and the
      exception that ended it early, if any. */
  datatype ForumRun = ForumRun(calls: seq<SignCall>, paces: nat, extras: seq<nat>, stop: Option<Exc>)

  /** The per-forum loop over `forums`, as a value. */
  function SignRun(g: Signing, forums: seq<Json>): ForumRun {
    var n := Reached(forums);
    ReachedFirstMissing(forums);
    var paced := if n == |forums| then n else n + 1;
    ForumRun(ForumCalls(g, forums, n), paced, Multiples(paced),
             if n == |forums| then None else Some(ForumKeys(forums[n]).exc))
  }

  /** The first `n` forums have both keys. */
  predicate KeysFound(forums: seq<Json>, n: nat)
    requires n <= |forums|
  {
    forall i :: 0 <= i < n ==> ForumKeys(forums[i]).Ok?
  }

  /** One more forum with both keys extends the calls by its call. */
  lemma CallsExtend(g: Signing, forums: seq<Json>, n: nat, calls: seq<SignCall>, c: SignCall)
    requires n < |forums| && KeysFound(forums, n) && ForumKeys(forums[n]).Ok?
    requires calls == ForumCalls(g, forums, n) && c == CallFor(g, forums, n)
    ensures KeysFound(forums, n + 1) && calls + [c] == ForumCalls(g, forums, n + 1)
  {
  }

  /** The run of a loop that stopped at forum `n`, or went through all of
      them when `stop` is `None`. */
  lemma RunEnds(g: Signing, forums: seq<Json>, n: nat, stop: Option<Exc>)
    requires n <= |forums| && KeysFound(forums, n)
    requires stop.None? <==> n == |forums|
    requires stop.Some? ==> ForumKeys(forums[n]) == Err(stop.value)
    ensures var paced := if stop.None? then n else n + 1;
      SignRun(g, forums) == ForumRun(ForumCalls(g, forums, n), paced, Multiples(paced), stop)
  {
    ReachedAt(forums, n);
  }

  /** The rest of one iteration after the pauses: `forum['id']`,
      `forum['name']`, then `client_sign` with the account's credential and
      token, `idx = i` and `count = len(forums)`. The call it made (the
      signed form `client_sign` posted and what it returned) joins `calls`;
      a failed look-up is raised instead and adds nothing. */
  method SignForum(g: Signing, forums: seq<Json>, i: nat, calls: seq<SignCall>)
    returns (stop: Option<Exc>, out: seq<SignCall>)
    requires i < |forums| && KeysFound(forums, i) && calls == ForumCalls(g, forums, i)
    ensures ForumKeys(forums[i]).Err? ==> stop == Some(ForumKeys(forums[i]).exc) && out == calls
    ensures ForumKeys(forums[i]).Ok? ==>
      stop == None && KeysFound(forums, i + 1) && out == ForumCalls(g, forums, i + 1)
  {
    var forum := forums[i];
    var fid := Index(forum, "id");
    if fid.Err? {
      return Some(fid.exc), calls;
    }
    var kw := Index(forum, "name");
    if kw.Err? {
      return Some(kw.exc), calls;
    }
    var ex := g.signNet(i);
    var r, _, form := SignAction.ClientSign(g.bduss, g.tbs, fid.value, kw.value, i, |forums|,
                                            ex.clock, ex.net, g.decode, g.digest);
    var call := SignCall(fid.value, kw.value, i, |forums|, form, r);
    CallsExtend(g, forums, i, calls, call);
    stop, out := None, calls + [call];
  }

  /** The loop `for forum_idx, forum in enumerate(forums, 1)`: a pause, the
      extra pause at multiples of 10, the two look-ups and the sign call. A
      failed look-up raises out of the loop after that forum's pauses. */
  method SignForums(g: Signing, forums: seq<Json>) returns (run: ForumRun)
    ensures run == SignRun(g, forums)
  {
    var calls, paces, extras := [], 0, [];
    var pos := 1;
    while pos <= |forums|
      invariant 1 <= pos <= |forums| + 1
      invariant KeysFound(forums, pos - 1)
      invariant calls == ForumCalls(g, forums, pos - 1)
      invariant paces == pos - 1 && extras == Multiples(pos - 1)
    {
      paces := paces + 1;
      if pos % 10 == 0 {
        extras := extras + [pos];
      }
      var stop;
      stop, calls := SignForum(g, forums, pos - 1, calls);
      if stop.Some? {
        RunEnds(g, forums, pos - 1, stop);
        run := ForumRun(calls, paces, extras, stop);
        return;
      }
      pos := pos + 1;
    }
    RunEnds(g, forums, |forums|, None);
    run := ForumRun(calls, paces, extras, None);
  }

  /** Everything one account's turn depends on: the network of the tbs
      request, the list pages, and the exchange of the sign request for each
      forum index. */
  datatype AccountEnv = AccountEnv(
    tbsNet: nat -> Transport.Attempt,
    pages: seq<Transport.Exchange>,
    signNet: nat -> Transport.Exchange)

  /** How an account's turn ended. */
  datatype AccountEnd =
    | Completed          // every forum was signed
    | NoForums           // the collector returned nothing; the account is skipped
    | Aborted(exc: Exc)  // `get_tbs` or a forum look-up raised; `main` moves on

  /** What one account's turn did: how it ended, the cookie of its tbs
      request, the fields of the list requests it sent, the forums it
      collected and its per-forum loop. */
  datatype AccountReport = AccountReport(
    end: AccountEnd,
    cookie: string,
    sent: seq<seq<(string, string)>>,
    forums: seq<Json>,
    run: ForumRun)

  const Untouched: ForumRun := ForumRun([], 0, [], None)

  /** One account's turn, as a value: the tbs token, then the forum list,
      then the per-forum loop signing with this account's credential and
      token. */
  function AccountTurn(bduss: string, env: AccountEnv, decode: string -> Option<Json>,
                       digest: string -> seq<Signer.byte>): AccountReport
  {
    var cookie := Cookie(bduss);
    match TbsOf(Transport.JsonReply(env.tbsNet, decode))
    case Err(e) => AccountReport(Aborted(e), cookie, [], [], Untouched)
    case Ok(tbs) =>
      var steps := Collector.Outcomes(env.pages, decode);
      var sent := Collector.SentRequests(bduss, env.pages, Collector.Requests(steps));
      var forums := Collector.Collect(steps);
      if forums == [] then AccountReport(NoForums, cookie, sent, [], Untouched)
      else
        var run := SignRun(Signing(bduss, tbs, env.signNet, decode, digest), forums);
        AccountReport(if run.stop.None? then Completed else Aborted(run.stop.value),
                      cookie, sent, forums, run)
  }

  /** The body of `main`'s `try` for one account. */
  method ProcessAccount(bduss: string, env: AccountEnv,
                        decode: string -> Option<Json>, digest: string -> seq<Signer.byte>)
    returns (report: AccountReport)
    requires Collector.Ends(Collector.Outcomes(env.pages, decode))
    ensures report == AccountTurn(bduss, env, decode, digest)
  {
    var tbs, cookie := GetTbs(bduss, env.tbsNet, decode);
    if tbs.Err? {
      report := AccountReport(Aborted(tbs.exc), cookie, [], [], Untouched);
      return;
    }
    ghost var steps := Collector.Outcomes(env.pages, decode);
    Collector.OutcomesAre(env.pages, decode);
    var forums, sent, _ := Collector.GetFavorite(bduss, env.pages, decode, digest, steps);
    if forums == [] {
      report := AccountReport(NoForums, cookie, sent, [], Untouched);
      return;
    }
    var run := SignForums(Signing(bduss, tbs.value, env.signNet, decode, digest), forums);
    report := AccountReport(if run.stop.None? then Completed else Aborted(run.stop.value),
                            cookie, sent, forums, run);
  }

  /** Every forum before the first one missing a key is signed exactly once,
      in list order: call `i` passes forum `i`'s `id` and `name`, `idx = i`
      and `count = len(forums)`; it posts the form signed with the account's
      credential, token and that request's timestamp, and returns what
      `client_sign` makes of that request's reply. */
  lemma SignsInOrder(g: Signing, forums: seq<Json>, i: nat)
    requires i < |SignRun(g, forums).calls|
    ensures i < |forums|
    ensures var c := SignRun(g, forums).calls[i];
      && ForumKeys(forums[i]) == Ok((c.fid, c.kw)) && c.idx == i && c.count == |forums|
      && c.form == SignAction.SignForm(g.bduss, g.tbs, c.fid, c.kw, g.signNet(i).clock, g.digest)
      && c.result == SignAction.Outcome(g.signNet(i).net, g.decode)
  {
    ReachedFirstMissing(forums);
    ForumCallAt(g, forums, Reached(forums), i);
  }

  /** A turn that got its tbs token and a non-empty forum list runs the
      per-forum loop over exactly that list, with this account's credential
      and that token. */
  lemma TurnRunsLoop(bduss: string, env: AccountEnv, decode: string -> Option<Json>,
                     digest: string -> seq<Signer.byte>)
    requires TbsOf(Transport.JsonReply(env.tbsNet, decode)).Ok?
    requires Collector.Collect(Collector.Outcomes(env.pages, decode)) != []
    ensures var t := AccountTurn(bduss, env, decode, digest);
      var tbs := TbsOf(Transport.JsonReply(env.tbsNet, decode)).value;
      && t.forums == Collector.Collect(Collector.Outcomes(env.pages, decode))
      && t.run == SignRun(Signing(bduss, tbs, env.signNet, decode, digest), t.forums)
      && (t.end.Completed? <==> t.run.stop.None?)
  {
  }

  /** Every sign request of the per-forum loop is signed with the account's
      credential and `tbs` token. */
  lemma RunUsesCredential(g: Signing, forums: seq<Json>)
    ensures forall k :: 0 <= k < |SignRun(g, forums).calls| ==>
      var f := SignRun(g, forums).calls[k].form;
      "BDUSS" in f && f["BDUSS"] == g.bduss && "tbs" in f && f["tbs"] == FieldText(g.tbs)
  {
    forall k | 0 <= k < |SignRun(g, forums).calls|
      ensures var f := SignRun(g, forums).calls[k].form;
        "BDUSS" in f && f["BDUSS"] == g.bduss && "tbs" in f && f["tbs"] == FieldText(g.tbs)
    {
      SignsInOrder(g, forums, k);
      var c := SignRun(g, forums).calls[k];
      SignAction.SignFormFields(g.bduss, g.tbs, c.fid, c.kw, g.signNet(k).clock, g.digest);
    }
  }

  /** Everything an account's turn sends carries that account's credential:
      the cookie of the tbs request, the `BDUSS` field that opens every list
      request, and the `BDUSS` field of every signed sign request, which also
      carries the token `get_tbs` returned. */
  lemma TurnUsesCredential(bduss: string, env: AccountEnv, decode: string -> Option<Json>,
                           digest: string -> seq<Signer.byte>)
    ensures var t := AccountTurn(bduss, env, decode, digest);
      && t.cookie == Cookie(bduss)
      && (forall k :: 0 <= k < |t.sent| ==> |t.sent[k]| > 0 && t.sent[k][0] == ("BDUSS", bduss))
      && (forall k :: 0 <= k < |t.run.calls| ==>
            var f := t.run.calls[k].form;
            && "BDUSS" in f && f["BDUSS"] == bduss
            && "tbs" in f && f["tbs"] == FieldText(TbsOf(Transport.JsonReply(env.tbsNet, decode)).value))
  {
    var t := AccountTurn(bduss, env, decode, digest);
    var reply := TbsOf(Transport.JsonReply(env.tbsNet, decode));
    if reply.Ok? {
      var steps := Collector.Outcomes(env.pages, decode);
      var n := Collector.Requests(steps);
      assert t.sent == Collector.SentRequests(bduss, env.pages, n);
      forall k | 0 <= k < |t.sent|
        ensures |t.sent[k]| > 0 && t.sent[k][0] == ("BDUSS", bduss)
      {
        Collector.SentRequestAt(bduss, env.pages, n, k);
      }
      var forums := Collector.Collect(steps);
      if forums != [] {
        var g := Signing(bduss, reply.value, env.signNet, decode, digest);
        assert t.run == SignRun(g, forums);
        RunUsesCredential(g, forums);
      }
    }
  }

  /** A loop that ran to the end made exactly one call per forum, paused
      before each, and took `len(forums) // 10` extra pauses. */
  lemma CompletedSignsAll(g: Signing, forums: seq<Json>)
    requires SignRun(g, forums).stop.None?
    ensures var run := SignRun(g, forums);
      |run.calls| == |forums| == run.paces && |run.extras| == |forums| / 10
  {
    ReachedFirstMissing(forums);
    MultiplesExactly(|forums|);
  }

  /** A loop stopped by a forum missing a key made the calls before it, took
      that forum's pauses too, and reports that forum's look-up exception. */
  lemma StoppedAtMissingKey(g: Signing, forums: seq<Json>)
    requires SignRun(g, forums).stop.Some?
    ensures var run := SignRun(g, forums); var n := |run.calls|;
      && n < |forums| && run.paces == n + 1
      && ForumKeys(forums[n]) == Err(run.stop.value)
  {
    ReachedFirstMissing(forums);
  }

  /** A turn that could not fetch the tbs token or found no forum makes no
      sign call and takes no pause; without the token it does not ask for
      the forum list either. */
  lemma SkippedTurnSignsNothing(bduss: string, env: AccountEnv, decode: string -> Option<Json>,
                                digest: string -> seq<Signer.byte>)
    requires TbsOf(Transport.JsonReply(env.tbsNet, decode)).Err?
          || Collector.Collect(Collector.Outcomes(env.pages, decode)) == []
    ensures AccountTurn(bduss, env, decode, digest).run == Untouched
    ensures TbsOf(Transport.JsonReply(env.tbsNet, decode)).Err? ==>
      AccountTurn(bduss, env, decode, digest).sent == []
  {
  }

  /** `main`: reads the credential list and gives every credential its turn,
      in order; an account whose turn raised does not stop the others. */
  method SignAllAccounts(setting: string, accounts: nat -> AccountEnv,
              decode: string -> Option<Json>, digest: string -> seq<Signer.byte>)
    returns (reports: seq<AccountReport>)
    requires forall i :: 0 <= i < |BdussList(setting)| ==>
      Collector.Ends(Collector.Outcomes(accounts(i).pages, decode))
    ensures |reports| == |BdussList(setting)|
    ensures forall i :: 0 <= i < |reports| ==>
      reports[i] == AccountTurn(BdussList(setting)[i], accounts(i), decode, digest)
  {
    reports := [];
    if setting == "" {
      EmptySettingNoAccounts();
      return;
    }
    var bdussList := BdussList(setting);
    for u := 0 to |bdussList|
      invariant |reports| == u
      invariant forall i :: 0 <= i < u ==>
        reports[i] == AccountTurn(bdussList[i], accounts(i), decode, digest)
    {
      var report := ProcessAccount(bdussList[u], accounts(u), decode, digest);
      reports := reports + [report];
    }
  }
}
