/**
 * The shared search worker (searchWorker.js): the attribute and kind filter a
 * result must pass, and the replies the worker posts for one query. The full-text
 * index is not modelled; the hits it returns for a query are an input.
 */
module SearchWorker {
  import opened Wrappers
  import opened Strings
  import Search

  /** The stored fields of an indexed declaration that the filter looks at. */
  datatype Item = Item(name: string, kind: string, attributes: seq<string>)

  /**
   * The `filters` of a request; an absent filter object reads as one with neither
   * list, as the default parameter `filters = {}` gives.
   */
  datatype Filters = Filters(attributes: Option<seq<string>>, kind: Option<seq<string>>)

  const NoFilters := Filters(None, None)

  /** A filter list takes part when it is present and not empty. */
  predicate Active(filter: Option<seq<string>>) {
    filter.Some? && |filter.value| > 0
  }

  predicate HasAttrFilter(f: Filters) {
    Active(f.attributes)
  }

  predicate HasKindFilter(f: Filters) {
    Active(f.kind)
  }

  /** Some attribute of the item is one of the wanted ones. */
  predicate SharesAttribute(item: Item, wanted: seq<string>) {
    exists a :: a in item.attributes && a in wanted
  }

  /**
   * What the filter is meant to accept: each filter that takes part must be met,
   * the attribute filter by some attribute of the item and the kind filter by
   * its kind.
   */
  predicate Accepts(item: Item, f: Filters) {
    (HasAttrFilter(f) ==> SharesAttribute(item, f.attributes.value))
    && (HasKindFilter(f) ==> item.kind in f.kind.value)
  }

  /**
   * `filterItemResult(result, filters)`: the early return when no filter takes
   * part, the kind lookup, the attribute loop that stops at the first match,
   * and the final choice between the two flags.
   */
  method FilterItemResult(item: Item, f: Filters) returns (b: bool)
    ensures b == Accepts(item, f)
  {
    var hasAttrFilter := HasAttrFilter(f);
    var hasKindFilter := HasKindFilter(f);
    if !hasAttrFilter && !hasKindFilter {
      return true;
    }
    var isResultAttrIncluded := false;
    var isResultKindIncluded := false;
    if hasKindFilter {
      isResultKindIncluded := item.kind in f.kind.value;
    }
    if hasAttrFilter {
      var k := 0;
      while k < |item.attributes|
        invariant 0 <= k <= |item.attributes|
        invariant isResultAttrIncluded <==> exists l :: 0 <= l < k && item.attributes[l] in f.attributes.value
        invariant isResultAttrIncluded ==> k > 0
        decreases |item.attributes| - k, if isResultAttrIncluded then 0 else 1
      {
        if item.attributes[k] in f.attributes.value {
          isResultAttrIncluded := true;
          break;
        }
        k := k + 1;
      }
      assert isResultAttrIncluded <==> SharesAttribute(item, f.attributes.value);
    }
    b := if hasKindFilter && hasAttrFilter then isResultAttrIncluded && isResultKindIncluded
      else if hasAttrFilter then isResultAttrIncluded
      else isResultKindIncluded;
  }

  /** The four cases of the filter: no filter, attributes only, kind only, both. */
  lemma AcceptsCases(item: Item, f: Filters)
    ensures !HasAttrFilter(f) && !HasKindFilter(f) ==> Accepts(item, f)
    ensures HasAttrFilter(f) && !HasKindFilter(f) ==>
      (Accepts(item, f) <==> exists l :: 0 <= l < |item.attributes| && item.attributes[l] in f.attributes.value)
    ensures !HasAttrFilter(f) && HasKindFilter(f) ==> (Accepts(item, f) <==> item.kind in f.kind.value)
    ensures HasAttrFilter(f) && HasKindFilter(f) ==>
      (Accepts(item, f) <==> Accepts(item, Filters(f.attributes, None)) && Accepts(item, Filters(None, f.kind)))
  {
    if HasAttrFilter(f) && SharesAttribute(item, f.attributes.value) {
      var a :| a in item.attributes && a in f.attributes.value;
      var l :| 0 <= l < |item.attributes| && item.attributes[l] == a;
    }
  }

  /**
   * `large` widens `small`: a list that takes part grows to a list holding all of its
   * names, and a list that does not take part (absent or empty) stays out.
   */
  predicate WidensList(small: Option<seq<string>>, large: Option<seq<string>>) {
    if Active(small) then large.Some? && forall a :: a in small.value ==> a in large.value
    else !Active(large)
  }

  /**
   * Widening the filter lists never turns a result away. Switching a list on is not
   * widening: a filter that did not take part may reject what it now meets.
   */
  lemma AcceptsWiden(item: Item, f: Filters, g: Filters)
    requires WidensList(f.attributes, g.attributes) && WidensList(f.kind, g.kind)
    requires Accepts(item, f)
    ensures Accepts(item, g)
  {
    if HasAttrFilter(f) {
      var a :| a in item.attributes && a in f.attributes.value;
      assert a in g.attributes.value;
    }
  }

  /** An empty filter list is no filter at all. */
  lemma EmptyListIsNoFilter(item: Item)
    ensures Accepts(item, Filters(Some([]), Some([]))) && Accepts(item, NoFilters)
  {
  }

  // ---------------------------------------------------------------------------
  // One request

  /**
   * A request: the query text, the filters and `maxCount`, which is `None` when
   * the request carries no number there.
   */
  datatype Request = Request(query: string, filters: Filters, maxCount: Option<int>)

  /** A posted reply: the (possibly truncated) results and the number of results. */
  datatype Reply = Reply(response: seq<Item>, total: nat)

  const EmptyReply := Reply([], 0)

  /** The hits the index returns, in order, that the filter accepts. */
  function Filtered(hits: seq<Item>, f: Filters): (r: seq<Item>)
    ensures |r| <= |hits|
    ensures forall x :: x in r <==> x in hits && Accepts(x, f)
  {
    if hits == [] then []
    else (if Accepts(hits[0], f) then [hits[0]] else []) + Filtered(hits[1..], f)
  }

  /** The response part of a reply: truncated to `maxCount` only for a non-negative number. */
  function Truncate(results: seq<Item>, maxCount: Option<int>): seq<Item> {
    if maxCount.Some? && maxCount.value >= 0 then Search.JsSliceTo(results, maxCount.value) else results
  }

  /**
   * The reply to a request whose trimmed query is not empty: the accepted hits of
   * the index for the trimmed query, cut to `maxCount`, with the count of all of
   * them. An empty trimmed query gets the empty reply without a search.
   */
  function Answer(req: Request, hits: string -> seq<Item>): Reply {
    var q := JsTrim(req.query);
    if |q| > 0 then
      var results := Filtered(hits(q), req.filters);
      Reply(Truncate(results, req.maxCount), |results|)
    else EmptyReply
  }

  /**
   * The replies of the message handler as written: the answer when the trimmed
   * query is not empty, and then, in every case, an empty reply.
   */
  function PostedReplies(req: Request, hits: string -> seq<Item>): seq<Reply> {
    var q := JsTrim(req.query);
    (if |q| > 0 then [Answer(req, hits)] else []) + [EmptyReply]
  }

  /** The worker's end of a connection, with every reply posted on it so far. */
  class Port {
    var posted: seq<Reply>

    constructor ()
      ensures posted == []
    {
      posted := [];
    }

    method PostMessage(reply: Reply)
      modifies this
      ensures posted == old(posted) + [reply]
    {
      posted := posted + [reply];
    }

    /** `port.onmessage` as written: searches, posts the answer, then posts the empty reply. */
    method OnMessage(req: Request, hits: string -> seq<Item>)
      modifies this
      ensures posted == old(posted) + PostedReplies(req, hits)
    {
      var sanitizedQuery := JsTrim(req.query);
      if |sanitizedQuery| > 0 {
        var results := Filtered(hits(sanitizedQuery), req.filters);
        var response := Truncate(results, req.maxCount);
        PostMessage(Reply(response, |results|));
      }
      PostMessage(EmptyReply);
    }

    /**
     * The handler as evidently intended: the empty reply is the answer to an
     * empty query only, so every request gets exactly one reply, its answer.
     */
    method Respond(req: Request, hits: string -> seq<Item>)
      modifies this
      ensures posted == old(posted) + [Answer(req, hits)]
    {
      var sanitizedQuery := JsTrim(req.query);
      if |sanitizedQuery| > 0 {
        var results := Filtered(hits(sanitizedQuery), req.filters);
        var response := Truncate(results, req.maxCount);
        PostMessage(Reply(response, |results|));
        return;
      }
      PostMessage(EmptyReply);
    }
  }

  /**
   * What a reply carries: the total counts every accepted hit, the response is
   * a prefix of the accepted hits, no longer than a non-negative `maxCount`
   * and whole otherwise, and a query of white space only searches nothing.
   */
  lemma AnswerSpec(req: Request, hits: string -> seq<Item>)
    ensures var a := Answer(req, hits);
      var q := JsTrim(req.query);
      && (|q| == 0 ==> a == EmptyReply)
      && (|q| > 0 ==> a.total == |Filtered(hits(q), req.filters)|)
      && (|q| > 0 ==> a.response <= Filtered(hits(q), req.filters))
      && (req.maxCount.Some? && req.maxCount.value >= 0 ==> |a.response| <= req.maxCount.value)
      && (|q| > 0 && (req.maxCount.None? || req.maxCount.value < 0) ==> a.response == Filtered(hits(q), req.filters))
      && (forall x :: x in a.response ==> Accepts(x, req.filters))
  {
    var q := JsTrim(req.query);
    if |q| > 0 {
      var results := Filtered(hits(q), req.filters);
      TruncatePrefix(results, req.maxCount);
      assert Answer(req, hits) == Reply(Truncate(results, req.maxCount), |results|);
    }
  }

  lemma TruncatePrefix(results: seq<Item>, maxCount: Option<int>)
    ensures Truncate(results, maxCount) <= results
    ensures maxCount.Some? && maxCount.value >= 0 ==> |Truncate(results, maxCount)| <= maxCount.value
    ensures maxCount.None? || maxCount.value < 0 ==> Truncate(results, maxCount) == results
    ensures forall x :: x in Truncate(results, maxCount) ==> x in results
  {
  }

  /** The query is trimmed before the search: surrounding white space changes nothing. */
  lemma AnswerIgnoresOuterSpace(req: Request, hits: string -> seq<Item>, pad: string)
    requires forall k :: 0 <= k < |pad| ==> IsJsSpace(pad[k])
    requires JsTrim(req.query) == req.query
    ensures Answer(Request(pad + req.query + pad, req.filters, req.maxCount), hits) == Answer(req, hits)
  {
    var q := req.query;
    assert JsTrim(pad + q + pad) == q by {
      TrimmedEnds(q);
      StripPadded(pad, q, IsJsSpace);
    }
    AnswerOfTrimmed(Request(pad + q + pad, req.filters, req.maxCount), req, hits);
  }

  /** The answer depends on the query only through its trimmed form. */
  lemma AnswerOfTrimmed(r1: Request, r2: Request, hits: string -> seq<Item>)
    requires JsTrim(r1.query) == JsTrim(r2.query)
    requires r1.filters == r2.filters && r1.maxCount == r2.maxCount
    ensures Answer(r1, hits) == Answer(r2, hits)
  {
  }

  lemma TrimmedEnds(q: string)
    requires JsTrim(q) == q
    ensures q != [] ==> !IsJsSpace(q[0]) && !IsJsSpace(q[|q| - 1])
  {
  }

  /**
   * The handler as written posts two replies for a non-empty query, the second
   * one empty, even when the search found something.
   */
  lemma PostedRepliesExtraEmpty(req: Request, hits: string -> seq<Item>)
    requires |JsTrim(req.query)| > 0
    ensures |PostedReplies(req, hits)| == 2
    ensures PostedReplies(req, hits)[1] == EmptyReply
    ensures Filtered(hits(JsTrim(req.query)), req.filters) != [] ==> PostedReplies(req, hits)[1] != PostedReplies(req, hits)[0]
  {
  }

  /**
   * The first reply posted is always the answer, which is the reply a client
   * that settles on the first message receives; the corrected handler posts
   * exactly that one reply.
   */
  lemma FirstReplyIsAnswer(req: Request, hits: string -> seq<Item>)
    ensures PostedReplies(req, hits)[0] == Answer(req, hits)
    ensures PostedReplies(req, hits) == [Answer(req, hits)] || PostedReplies(req, hits) == [Answer(req, hits), EmptyReply]
  {
    if |JsTrim(req.query)| > 0 {
      assert PostedReplies(req, hits) == [Answer(req, hits)] + [EmptyReply];
    } else {
      assert PostedReplies(req, hits) == [] + [EmptyReply];
    }
  }
}
