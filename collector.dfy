/**
 * The paginated collector (`get_favorite`): requests the followed-forum list
 * page by page (`page_no` 1, 2, 3, …, `page_size` 200), flattens each page's
 * `forum_list` subgroups into one list, stops after the first page whose
 * `has_more` is not the string "1", and on any exception returns what it has
 * gathered so far.
 */
module Collector {
  import Text
  import opened JsonValue
  import Signer
  import Transport

  const PageSize: int := 200

  /** The text `str(page_size)` puts in the request; `PageSizeRendered` ties it
      to `str(200)`. */
  const PageSizeText: string := "200"

  lemma PageSizeRendered()
    ensures Text.IntToString(PageSize) == PageSizeText
  {
  }

  /** The subgroups of `forum_list`, in the order they are flattened. */
  const ForumTypes: seq<string> := ["non-gconforum", "gconforum"]

  /** The form fields of one list request, in the order of the dict literal. */
  function PageRequest(bduss: string, pageNo: int, clock: int): seq<(string, string)> {
    [("BDUSS", bduss)] + ClientFields
    + [("page_no", Text.IntToString(pageNo)), ("page_size", PageSizeText)]
    + DeviceFields + [("timestamp", Text.IntToString(clock)), ("vcode_tag", "11")]
  }

  /** The fixed client identification fields that follow `BDUSS`. */
  const ClientFields: seq<(string, string)> :=
    [ ("_client_type", "2"),
      ("_client_id", "wappc_1534235498291_488"),
      ("_client_version", "9.7.8.0"),
      ("_phone_imei", "000000000000000"),
      ("from", "1008621y") ]

  /** The fixed device fields that follow the paging fields. */
  const DeviceFields: seq<(string, string)> := [("model", "MI+5"), ("net_type", "1")]

  /** What `encodeData` makes of page `pageNo`'s request: the signed form fields. */
  function PageForm(bduss: string, pageNo: int, clock: int, digest: string -> seq<Signer.byte>)
    : map<string, string>
  {
    Signer.SignedEntries(PageRequest(bduss, pageNo, clock), digest)
  }

  /** Builds and signs page `pageNo`'s request (main.py:170-184). */
  method SendPage(bduss: string, pageNo: int, clock: int, digest: string -> seq<Signer.byte>)
    returns (data: map<string, string>)
    ensures data == PageForm(bduss, pageNo, clock, digest)
  {
    data := Signer.SignedRequest(PageRequest(bduss, pageNo, clock), digest);
  }

  /** The signed form of page `pageNo`'s request carries that page number,
      the page size "200" and the account's BDUSS. */
  lemma PageRequestFields(bduss: string, pageNo: int, clock: int, digest: string -> seq<Signer.byte>)
    ensures var m := PageForm(bduss, pageNo, clock, digest);
      && "page_no" in m && m["page_no"] == Text.IntToString(pageNo)
      && "page_size" in m && m["page_size"] == "200"
      && "BDUSS" in m && m["BDUSS"] == bduss
  {
    FieldAt(bduss, pageNo, clock, digest, 6);
    FieldAt(bduss, pageNo, clock, digest, 7);
    FieldAt(bduss, pageNo, clock, digest, 0);
    assert PageRequest(bduss, pageNo, clock)[7].1 == "200";
  }

  /** Every field of the request literal reaches the signed form unchanged. */
  lemma FieldAt(bduss: string, pageNo: int, clock: int, digest: string -> seq<Signer.byte>, i: nat)
    requires i < 12
    ensures var pairs := PageRequest(bduss, pageNo, clock);
      pairs[i].0 in PageForm(bduss, pageNo, clock, digest)
      && PageForm(bduss, pageNo, clock, digest)[pairs[i].0] == pairs[i].1
  {
    var pairs := PageRequest(bduss, pageNo, clock);
    Signer.SignedEntriesHold(pairs, digest, i);
  }

  /** The signed dict of every list request passes the signature
      recomputation over its other entries. */
  lemma PageRequestVerifies(bduss: string, pageNo: int, clock: int, digest: string -> seq<Signer.byte>)
    ensures var keys := Signer.Inserted([], map[], PageRequest(bduss, pageNo, clock)) + [Signer.SignField];
      var m := PageForm(bduss, pageNo, clock, digest);
      Signer.Distinct(keys) && (forall k :: k in keys <==> k in m) && Signer.Verifies(keys, m, digest)
  {
    var pairs := PageRequest(bduss, pageNo, clock);
    assert forall a :: 0 <= a < |pairs| ==> pairs[a].0 != Signer.SignField;
    Signer.SignedEntriesVerify(pairs, digest);
  }

  /** What one subgroup value contributes: a list is extended, a lone dict is
      appended as one item, anything else is ignored. */
  function Shape(v: Json): (items: seq<Json>) {
    match v
    case JArr(xs) => xs
    case JObj(_) => [v]
    case _ => []
  }

  /** The items added to the list, and whether an exception was raised. */
  datatype Flat = Flat(added: seq<Json>, raised: bool)

  /** main.py:190-197 for the subgroups `types` of a reply `res` that has a
      `forum_list` entry: `forum_type in res['forum_list']`, then
      `res['forum_list'][forum_type]`, for each type in turn. */
  function Groups(res: Json, types: seq<string>): Flat {
    if types == [] then Flat([], false)
    else
      var prev := Groups(res, types[..|types| - 1]);
      var t := types[|types| - 1];
      if prev.raised then prev
      else
        match Index(res, "forum_list")
        case Err(_) => Flat(prev.added, true)
        case Ok(fl) =>
          match Contains(fl, t)
          case Err(_) => Flat(prev.added, true)
          case Ok(found) =>
            if !found then prev
            else
              match Index(fl, t)
              case Err(_) => Flat(prev.added, true)
              case Ok(v) => Flat(prev.added + Shape(v), false)
  }

  /** main.py:190-197 for a whole reply. */
  function PageItems(res: Json): Flat {
    match Contains(res, "forum_list")
    case Err(_) => Flat([], true)
    case Ok(found) => if found then Groups(res, ForumTypes) else Flat([], false)
  }

  /** How the loop goes on after a page. */
  datatype Flow = More | Stop | Raised

  datatype PageStep = PageStep(added: seq<Json>, flow: Flow)

  /** One iteration of the page loop, from the page's reply (or the exception
      `get_json_response` raised). */
  function Step(reply: Result<Json>): PageStep {
    match reply
    case Err(_) => PageStep([], Raised)
    case Ok(res) =>
      var flat := PageItems(res);
      if flat.raised then PageStep(flat.added, Raised)
      else
        match Get(res, "has_more", JNull)
        case Err(_) => PageStep(flat.added, Raised)
        case Ok(h) => PageStep(flat.added, if h == JStr("1") then More else Stop)
  }

  function PageStepOf(page: Transport.Exchange, decode: string -> Option<Json>): PageStep {
    Step(Transport.JsonReply(page.net, decode))
  }

  /** The outcome of every page the server would serve, in page order. */
  function Outcomes(pages: seq<Transport.Exchange>, decode: string -> Option<Json>): (steps: seq<PageStep>)
    ensures |steps| == |pages|
  {
    if pages == [] then [] else [PageStepOf(pages[0], decode)] + Outcomes(pages[1..], decode)
  }

  /** `steps` lists the outcome of each page of `pages`. */
  predicate IsOutcomes(steps: seq<PageStep>, pages: seq<Transport.Exchange>, decode: string -> Option<Json>) {
    && |steps| == |pages|
    && forall i {:trigger PageStepOf(pages[i], decode)} ::
         0 <= i < |pages| ==> steps[i] == PageStepOf(pages[i], decode)
  }

  /** `Outcomes` computes the outcome list. */
  lemma OutcomesAre(pages: seq<Transport.Exchange>, decode: string -> Option<Json>)
    ensures IsOutcomes(Outcomes(pages, decode), pages, decode)
  {
    forall i | 0 <= i < |pages| ensures Outcomes(pages, decode)[i] == PageStepOf(pages[i], decode) {
      OutcomeAt(pages, decode, i);
    }
  }

  /** Page `k`'s outcome is computed from page `k`'s exchange alone. */
  lemma {:induction false} OutcomeAt(pages: seq<Transport.Exchange>, decode: string -> Option<Json>, k: nat)
    requires k < |pages|
    ensures Outcomes(pages, decode)[k] == PageStepOf(pages[k], decode)
  {
    if k > 0 {
      OutcomeAt(pages[1..], decode, k - 1);
    }
  }

  /** Some page ends the loop (the server does not report more pages forever). */
  predicate Ends(steps: seq<PageStep>) {
    exists n :: 0 <= n < |steps| && steps[n].flow != More
  }

  /** The list `get_favorite` returns: each requested page's items, in page order. */
  function Collect(steps: seq<PageStep>): seq<Json> {
    if steps == [] then []
    else steps[0].added + (if steps[0].flow == More then Collect(steps[1..]) else [])
  }

  /** How many list requests `get_favorite` sends: at least the first page's,
      and never more than there are pages. */
  function Requests(steps: seq<PageStep>): (n: nat)
    ensures n <= |steps| && (steps != [] ==> n >= 1)
  {
    if steps == [] then 0
    else if steps[0].flow == More then 1 + Requests(steps[1..])
    else 1
  }

  /** The items of the first `n` pages, concatenated in page order. */
  function AddedBefore(steps: seq<PageStep>, n: nat): seq<Json>
    requires n <= |steps|
  {
    if n == 0 then [] else AddedBefore(steps, n - 1) + steps[n - 1].added
  }

  /** The first `n` pages all report more pages. */
  predicate AllMore(steps: seq<PageStep>, n: nat)
    requires n <= |steps|
  {
    n == 0 || (AllMore(steps, n - 1) && steps[n - 1].flow == More)
  }

  /** When some page ends the loop, a run of pages that all report more is
      followed by at least one more page. */
  lemma {:induction false} EndsAfterMore(steps: seq<PageStep>, n: nat)
    requires n <= |steps| && AllMore(steps, n) && Ends(steps)
    ensures n < |steps|
  {
    var e :| 0 <= e < |steps| && steps[e].flow != More;
    AllMoreBefore(steps, n, e);
  }

  /** Every page of an `AllMore` prefix reports more pages. */
  lemma {:induction false} AllMoreBefore(steps: seq<PageStep>, n: nat, j: nat)
    requires n <= |steps| && AllMore(steps, n)
    requires j < |steps| && steps[j].flow != More
    ensures n <= j
    decreases n
  {
    if n > 0 && j < n - 1 {
      AllMoreBefore(steps, n - 1, j);
    }
  }

  /** Pagination termination: when page `n` (0-based) is the first that does
      not report more, exactly pages `0 .. n` are requested and their items are
      returned in page order. */
  lemma {:induction false} CollectStopsAt(steps: seq<PageStep>, n: nat)
    requires n < |steps|
    requires AllMore(steps, n) && steps[n].flow != More
    ensures Collect(steps) == AddedBefore(steps, n + 1)
    ensures Requests(steps) == n + 1
  {
    if n > 0 {
      AllMoreTail(steps, n);
      CollectStopsAt(steps[1..], n - 1);
      AddedBeforeTail(steps, n + 1);
    }
  }

  /** Dropping the first page of an `AllMore` prefix leaves an `AllMore` prefix. */
  lemma {:induction false} AllMoreTail(steps: seq<PageStep>, n: nat)
    requires 1 <= n <= |steps| && AllMore(steps, n)
    ensures steps[0].flow == More && AllMore(steps[1..], n - 1)
  {
    if n > 1 {
      AllMoreTail(steps, n - 1);
    }
  }

  /** `AddedBefore` on a sequence and on its tail differ by the first page. */
  lemma {:induction false} AddedBeforeTail(steps: seq<PageStep>, n: nat)
    requires 1 <= n <= |steps|
    ensures AddedBefore(steps, n) == steps[0].added + AddedBefore(steps[1..], n - 1)
  {
    if n > 1 {
      AddedBeforeTail(steps, n - 1);
    }
  }

  /** A subgroup lookup that raises adds nothing: only a dict `forum_list` can
      be indexed by a subgroup name, and a dict never raises. */
  lemma {:induction false} GroupsRaisedAddsNothing(res: Json, types: seq<string>)
    ensures Groups(res, types).raised ==> Groups(res, types).added == []
    ensures Index(res, "forum_list").Ok? && Index(res, "forum_list").value.JObj? ==> !Groups(res, types).raised
    ensures Index(res, "forum_list").Err? || !Index(res, "forum_list").value.JObj? ==> Groups(res, types).added == []
  {
    if types != [] {
      GroupsRaisedAddsNothing(res, types[..|types| - 1]);
    }
  }

  /** Pagination partial failure: a page whose handling raises contributes no
      items, so the result is exactly the items of the pages before it. */
  lemma RaisedPageAddsNothing(reply: Result<Json>)
    ensures Step(reply).flow == Raised ==> Step(reply).added == []
  {
    if reply.Ok? && Contains(reply.value, "forum_list") == Ok(true) {
      GroupsRaisedAddsNothing(reply.value, ForumTypes);
    }
  }

  /** With a dict `forum_list`, a page's items are its `non-gconforum` items
      followed by its `gconforum` items. */
  lemma DictForumListOrder(fields: map<string, Json>, fl: map<string, Json>)
    requires "forum_list" in fields && fields["forum_list"] == JObj(fl)
    ensures var flat := PageItems(JObj(fields));
      && !flat.raised
      && flat.added == (if "non-gconforum" in fl then Shape(fl["non-gconforum"]) else [])
                     + (if "gconforum" in fl then Shape(fl["gconforum"]) else [])
  {
    var res := JObj(fields);
    assert ForumTypes[..1] == ["non-gconforum"] && ForumTypes[..1][..0] == [];
    var first := if "non-gconforum" in fl then Shape(fl["non-gconforum"]) else [];
    assert Groups(res, ForumTypes[..1]) == Flat(first, false);
    var second := if "gconforum" in fl then Shape(fl["gconforum"]) else [];
    assert Groups(res, ForumTypes) == Flat(first + second, false);
  }

  /** main.py:190-197 run against the growing list: the `forum_list` subgroups of
      `res` are appended to `forums` in place, and `raised` reports an exception. */
  method FlattenInto(forums: seq<Json>, res: Json) returns (out: seq<Json>, raised: bool)
    ensures out == forums + PageItems(res).added
    ensures raised == PageItems(res).raised
  {
    out, raised := forums, false;
    var found := Contains(res, "forum_list");
    if found.Err? {
      raised := true;
      return;
    }
    if !found.value {
      return;
    }
    for t := 0 to |ForumTypes|
      invariant out == forums + Groups(res, ForumTypes[..t]).added
      invariant raised == Groups(res, ForumTypes[..t]).raised
      invariant raised ==> Groups(res, ForumTypes) == Groups(res, ForumTypes[..t])
    {
      assert ForumTypes[..t + 1][..t] == ForumTypes[..t];
      if raised {
        GroupsSticky(res, ForumTypes, t + 1);
        continue;
      }
      var fl := Index(res, "forum_list");
      if fl.Err? {
        raised := true;
        GroupsSticky(res, ForumTypes, t + 1);
        continue;
      }
      var forumType := ForumTypes[t];
      var inList := Contains(fl.value, forumType);
      if inList.Err? {
        raised := true;
        GroupsSticky(res, ForumTypes, t + 1);
        continue;
      }
      if inList.value {
        var items := Index(fl.value, forumType);
        if items.Err? {
          raised := true;
          GroupsSticky(res, ForumTypes, t + 1);
          continue;
        }
        match items.value
        case JArr(xs) =>
          out := out + xs;
        case JObj(_) =>
          out := out + [items.value];
        case _ =>
      }
    }
    assert ForumTypes[..|ForumTypes|] == ForumTypes;
  }

  /** Once a prefix of the subgroups has raised, the later ones are not looked at. */
  lemma {:induction false} GroupsSticky(res: Json, types: seq<string>, k: nat)
    requires k <= |types|
    requires Groups(res, types[..k]).raised
    ensures Groups(res, types) == Groups(res, types[..k])
    decreases |types| - k
  {
    if k < |types| {
      assert types[..k + 1][..k] == types[..k];
      GroupsSticky(res, types, k + 1);
    } else {
      assert types[..k] == types;
    }
  }

  /** The list requests for pages `1 .. n`, in the order they are sent, each
      as the fields of its dict literal (what is posted is their signed form,
      `PageForm`). */
  function SentRequests(bduss: string, pages: seq<Transport.Exchange>, n: nat): (sent: seq<seq<(string, string)>>)
    requires n <= |pages|
    ensures |sent| == n
  {
    if n == 0 then [] else SentRequests(bduss, pages, n - 1) + [PageRequest(bduss, n, pages[n - 1].clock)]
  }

  /** The `k`-th request sent (0-based) asks for page `k + 1`, 200 forums per
      page, with that page's timestamp. */
  lemma {:induction false} SentRequestAt(bduss: string, pages: seq<Transport.Exchange>, n: nat, k: nat)
    requires k < n <= |pages|
    ensures |SentRequests(bduss, pages, n)| == n
    ensures SentRequests(bduss, pages, n)[k] == PageRequest(bduss, k + 1, pages[k].clock)
  {
    if k < n - 1 {
      SentRequestAt(bduss, pages, n - 1, k);
    } else if n > 1 {
      SentRequestAt(bduss, pages, n - 1, 0);
    }
  }

  /** The `try` block of one page (main.py:186-206): the page's items are added
      to `forums`, and the loop goes on, stops, or stops on an exception. */
  method HandleReply(forums: seq<Json>, reply: Result<Json>, ghost page: Transport.Exchange, decode: string -> Option<Json>)
    returns (out: seq<Json>, flow: Flow)
    requires reply == Transport.JsonReply(page.net, decode)
    ensures out == forums + PageStepOf(page, decode).added && flow == PageStepOf(page, decode).flow
  {
    out := forums;
    if reply.Err? {
      return forums, Raised;
    }
    var raised;
    out, raised := FlattenInto(forums, reply.value);
    if raised {
      return out, Raised;
    }
    var hasMore := Get(reply.value, "has_more", JNull);
    if hasMore.Err? {
      return out, Raised;
    }
    flow := if hasMore.value != JStr("1") then Stop else More;
  }

  /** One iteration of the page loop for page `k + 1` (main.py:170-206): sign
      and send the request, then handle the reply. */
  method FetchPage(bduss: string, pages: seq<Transport.Exchange>, decode: string -> Option<Json>,
                   digest: string -> seq<Signer.byte>, ghost steps: seq<PageStep>, k: nat, forums: seq<Json>)
    returns (out: seq<Json>, request: seq<(string, string)>, flow: Flow)
    requires k < |pages| && IsOutcomes(steps, pages, decode)
    ensures request == PageRequest(bduss, k + 1, pages[k].clock)
    ensures out == forums + steps[k].added && flow == steps[k].flow
  {
    var page := pages[k];
    request := PageRequest(bduss, k + 1, page.clock);
    // the body posted to the list endpoint; the network does not depend on it
    var data := SendPage(bduss, k + 1, page.clock, digest);
    var reply, _, _ := Transport.GetJsonResponse(page.net, decode);
    out, flow := HandleReply(forums, reply, page, decode);
    assert steps[k] == PageStepOf(pages[k], decode);
  }

  /** `get_favorite(bduss)`: the collected forums, the fields of every list
      request sent (each posted in its signed form, `PageForm`), and the
      number of pauses between pages. */
  method GetFavorite(bduss: string, pages: seq<Transport.Exchange>, decode: string -> Option<Json>,
                     digest: string -> seq<Signer.byte>, ghost steps: seq<PageStep>)
    returns (forums: seq<Json>, sent: seq<seq<(string, string)>>, pauses: nat)
    requires IsOutcomes(steps, pages, decode) && Ends(steps)
    ensures forums == Collect(steps)
    ensures |sent| == Requests(steps) && |sent| <= |pages|
    ensures sent == SentRequests(bduss, pages, |sent|)
    ensures pauses == |sent| - 1
  {
    forums, sent, pauses := [], [], 0;
    var pageNo := 1;
    EndsAfterMore(steps, 0);
    while true
      invariant 1 <= pageNo <= |pages| && AllMore(steps, pageNo - 1)
      invariant forums == AddedBefore(steps, pageNo - 1)
      invariant |sent| == pageNo - 1 && pauses == pageNo - 1
      invariant sent == SentRequests(bduss, pages, pageNo - 1)
      decreases |pages| - pageNo
    {
      var request, flow;
      forums, request, flow := FetchPage(bduss, pages, decode, digest, steps, pageNo - 1, forums);
      sent := sent + [request];
      if flow != More {
        CollectStopsAt(steps, pageNo - 1);
        break;
      }
      EndsAfterMore(steps, pageNo);
      pageNo := pageNo + 1;
      pauses := pauses + 1;
    }
  }
}
