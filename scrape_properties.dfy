/** What the extractor promises, proved about the model in module Scrape:
    the order of the response checks, the node loop as an order-preserving
    selection, the optional fields, and the error-message table. */
module ScrapeProperties {
  import opened Outcomes
  import opened JsString
  import opened BracketPattern
  import opened Selection
  import opened Scrape

  // ----- the node loop -----

  /** A node whose extraction throws is as good as absent: the nodes before
      and after it are processed exactly as if it were not there. */
  lemma ThrowingNodeSkipped(nodes: seq<ResultNode>, i: nat)
    requires i < |nodes| && nodes[i].Throws?
    ensures Collected(nodes) == Collected(nodes[..i]) + Collected(nodes[i + 1..])
    ensures Collected(nodes) == Collected(nodes[..i] + nodes[i + 1..])
  {
    SelectSkips(ExtractNode, nodes, i);
  }

  /** The loop's results are an order-preserving selection of the nodes, one
      result per node that yields one; and any such selection is the loop's
      results. */
  lemma CollectedIsSelection(nodes: seq<ResultNode>, rs: seq<SearchResult>)
    ensures rs == Collected(nodes) <==> exists idx: seq<nat> :: SelectedBy(ExtractNode, nodes, idx, rs)
  {
    SelectIsSelection(ExtractNode, nodes);
    if exists idx: seq<nat> :: SelectedBy(ExtractNode, nodes, idx, rs) {
      var idx: seq<nat> :| SelectedBy(ExtractNode, nodes, idx, rs);
      SelectionIsSelect(ExtractNode, nodes, idx, rs);
    }
  }

  /** Every result the loop keeps is well formed. */
  lemma CollectedWellFormed(nodes: seq<ResultNode>)
    ensures forall k :: 0 <= k < |Collected(nodes)| ==> WellFormed(Collected(nodes)[k])
  {
    SelectIsSelection(ExtractNode, nodes);
    var idx: seq<nat> :| SelectedBy(ExtractNode, nodes, idx, Collected(nodes));
    forall k | 0 <= k < |Collected(nodes)| ensures WellFormed(Collected(nodes)[k]) {
      ExtractNodeWellFormed(nodes[idx[k]]);
    }
  }

  /** A node yields a result exactly when it does not throw, its cleaned
      title has a non-space character, and its `href` attribute is present
      and non-empty (the link is not trimmed, so a blank `href` passes). */
  lemma ExtractNodeKept(node: ResultNode)
    ensures ExtractNode(node).Some? <==>
      node.Raw? && !AllSpace(StripFirstBracket(node.titleText)) && node.href.Some? && node.href.value != []
  {
    if node.Raw? {
      TrimEmptyIff(StripFirstBracket(node.titleText));
    }
  }

  /** What a result holds, field by field: the cleaned title, the `href` as
      it is, `rating` and `ratingPeople` absent exactly when their text is
      all white space and otherwise the trimmed text, and `info` and `intro`
      always present, trimmed. */
  lemma ExtractNodeFields(node: ResultNode)
    requires ExtractNode(node).Some?
    ensures node.Raw?
    ensures
      var r := ExtractNode(node).value;
      r.title == NormaliseTitle(node.titleText) && r.link == node.href.value
      && (r.rating.None? <==> AllSpace(node.ratingText))
      && (r.rating.Some? ==> r.rating.value == Trim(node.ratingText))
      && (r.ratingPeople.None? <==> AllSpace(node.ratingPeopleText))
      && (r.ratingPeople.Some? ==> r.ratingPeople.value == Trim(node.ratingPeopleText))
      && r.info == Trim(node.castText) && r.intro == Trim(node.contentText)
  {
    var r := ExtractNode(node).value;
    assert r == SearchResult(NormaliseTitle(node.titleText), node.href.value,
                             OptionalField(Trim(node.ratingText)), OptionalField(Trim(node.ratingPeopleText)),
                             Trim(node.castText), Trim(node.contentText));
    TextField(node.ratingText);
    TextField(node.ratingPeopleText);
  }

  /** Every result a node yields is well formed. */
  lemma ExtractNodeWellFormed(node: ResultNode)
    requires ExtractNode(node).Some?
    ensures WellFormed(ExtractNode(node).value)
  {
    TextField(node.ratingText);
    TextField(node.ratingPeopleText);
  }

  /** An optional text field of a result: absent exactly when the text is all
      white space, otherwise the trimmed text, which is then non-empty. */
  lemma TextField(text: string)
    ensures OptionalField(Trim(text)).None? <==> AllSpace(text)
    ensures OptionalField(Trim(text)).Some? ==>
      OptionalField(Trim(text)).value == Trim(text) && Trim(text) != [] && IsTrimmed(Trim(text))
  {
    TrimEmptyIff(text);
  }

  // ----- the response checks and the outcome -----

  /** A status the client accepts (below 500) other than 200 fails before
      the page is looked at, with the status in the message. */
  lemma RejectedStatusFails(status: nat, data: string, page: Page)
    requires status != 200 && status < 500
    ensures Search(Received(status, data, page)) == Err(FailurePrefix + (StatusPrefix + Decimal(status)))
  {
  }

  /** A status of 500 or more makes the client reject with the response,
      which the outer handler reports without the general prefix. */
  lemma ServerErrorFails(status: nat, data: string, page: Page)
    requires status >= 500
    ensures Search(Received(status, data, page)) == Err(ResponseFailurePrefix + Decimal(status))
  {
  }

  /** A 200 response with an empty body fails, whatever the page holds. */
  lemma EmptyBodyFails(page: Page)
    ensures Search(Received(200, "", page)) == Err(FailurePrefix + EmptyBody)
  {
  }

  /** A challenge page fails, wherever the marker stands in the title and
      whatever result nodes the page holds. */
  lemma ChallengeFails(data: string, page: Page, i: nat)
    requires data != []
    requires i + |ChallengeMarker| <= |page.titleText|
    requires page.titleText[i..i + |ChallengeMarker|] == ChallengeMarker
    ensures Search(Received(200, data, page)) == Err(FailurePrefix + Blocked)
  {
    IncludesAt(page.titleText, ChallengeMarker, i);
  }

  /** The page is consulted only after the status and the body have passed:
      before that, two responses that differ only in their pages fail alike. */
  lemma PageIgnoredUntilBodyChecked(status: nat, data: string, p: Page, q: Page)
    requires status != 200 || data == []
    ensures Search(Received(status, data, p)) == Search(Received(status, data, q))
    ensures Search(Received(status, data, p)).Err?
  {
  }

  /** A page that passes the checks but yields no result fails with "no
      results", for instance a page with no `.result` node or one whose every
      node throws. */
  lemma NoResultsFails(data: string, page: Page)
    requires data != [] && !Includes(page.titleText, ChallengeMarker)
    requires forall k :: 0 <= k < |page.nodes| ==> ExtractNode(page.nodes[k]).None?
    ensures Search(Received(200, data, page)) == Err(FailurePrefix + NoResults)
  {
    var none: seq<nat> := [];
    assert SelectedBy(ExtractNode, page.nodes, none, []);
    SelectionIsSelect(ExtractNode, page.nodes, none, []);
  }

  /** The call succeeds exactly when the status is 200, the body is
      non-empty, the title has no challenge marker and some node yields a
      result; its results are then the loop's, never empty and all well
      formed. */
  lemma SearchSucceedsIff(ex: Exchange)
    ensures Search(ex).Ok? <==>
      ex.Received? && ex.status == 200 && ex.data != []
      && !Includes(ex.page.titleText, ChallengeMarker) && Collected(ex.page.nodes) != []
    ensures Search(ex).Ok? ==>
      var rs := Search(ex).value;
      rs == Collected(ex.page.nodes) && |rs| > 0 && |rs| <= |ex.page.nodes|
      && forall k :: 0 <= k < |rs| ==> WellFormed(rs[k])
  {
    if ex.Received? {
      CollectedWellFormed(ex.page.nodes);
    }
  }

  // ----- the error messages -----

  /** The timeout message is produced for a client error with the timeout
      code and for nothing else. */
  lemma ClassifyTimeoutIff(t: Thrown)
    ensures Classify(t) == TimeoutMessage <==> t.ClientError? && t.code == Some(TimeoutCode)
  {
    if !(t.ClientError? && t.code == Some(TimeoutCode)) {
      assert Classify(t)[2] != TimeoutMessage[2];
    }
  }

  /** "请求失败: <status>" comes from a client error that carries a response
      with that status (and no timeout code), and from nothing else. */
  lemma ClassifyResponseIff(t: Thrown, n: nat)
    ensures Classify(t) == ResponseFailurePrefix + Decimal(n) <==>
      t.ClientError? && t.code != Some(TimeoutCode) && t.responseStatus == Some(n)
  {
    var m := Classify(t);
    if m == ResponseFailurePrefix + Decimal(n) {
      assert m[0] == ResponseFailurePrefix[0];
      assert m[2] == ResponseFailurePrefix[2];
      assert t.ClientError? && t.code != Some(TimeoutCode) && t.responseStatus.Some?;
      assert m[|ResponseFailurePrefix|..] == Decimal(n);
      assert m[|ResponseFailurePrefix|..] == Decimal(t.responseStatus.value);
      DecimalInjective(n, t.responseStatus.value);
    }
  }

  /** Every other thrown value is reported with the general prefix: an
      `Error` with its own message, anything else as "未知错误". */
  lemma ClassifyOtherErrors(t: Thrown)
    requires !(t.ClientError? && (t.code == Some(TimeoutCode) || t.responseStatus.Some?))
    ensures Classify(t) == FailurePrefix + (if t.NonError? then Unknown else t.message)
  {
  }

  /** The caller can tell a timeout from the other failures by the message
      alone: the call reports the timeout message exactly when the request
      timed out. */
  lemma TimeoutReportedIff(ex: Exchange)
    ensures Search(ex) == Err(TimeoutMessage) <==> ex.TransportError? && ex.code == Some(TimeoutCode)
  {
    match Attempt(ex)
    case Ok(_) =>
    case Err(t) => ClassifyTimeoutIff(t);
  }

  /** "请求失败: <status>" is reported exactly for a response whose status
      the client refused, so the status in it is always 500 or more. */
  lemma ResponseStatusReportedIff(ex: Exchange, n: nat)
    ensures Search(ex) == Err(ResponseFailurePrefix + Decimal(n)) <==>
      ex.Received? && ex.status == n && n >= 500
  {
    match Attempt(ex)
    case Ok(_) =>
    case Err(t) => ClassifyResponseIff(t, n);
  }

  // ----- a worked page -----

  /** Three nodes, the middle one of which throws or lacks a title or a
      link: the call returns the results of the first and the third, in that
      order, and the middle node leaves no trace. */
  lemma ThreeNodeExample(data: string, titleText: string, first: ResultNode, middle: ResultNode, third: ResultNode)
    requires data != [] && !Includes(titleText, ChallengeMarker)
    requires ExtractNode(first).Some? && ExtractNode(middle).None? && ExtractNode(third).Some?
    ensures Search(Received(200, data, Page(titleText, [first, middle, third])))
      == Ok([ExtractNode(first).value, ExtractNode(third).value])
  {
    SelectDropsMiddle(ExtractNode, first, middle, third);
  }

}
