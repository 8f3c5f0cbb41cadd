/** The search-result extractor `scrapeDouban`: it checks the HTTP response,
    refuses a bot-challenge page, turns every `.result` node of the page into
    a search result (skipping nodes whose extraction throws and nodes without
    a title or a link), refuses an empty outcome, and maps every failure to one
    error message.

    The HTTP client and the HTML library are replaced by plain inputs: an
    `Exchange` says how the request ended, and a `Page` holds the text that
    the CSS selectors return. */
module Scrape {
  import opened Outcomes
  import opened JsString
  import opened BracketPattern
  import opened Selection

  /** One search result (`DoubanSearchResult`); `rating` and `ratingPeople`
      are optional properties of the object. */
  datatype SearchResult = SearchResult(
    title: string,
    link: string,
    rating: Option<string>,
    ratingPeople: Option<string>,
    info: string,
    intro: string)

  /** One `.result` node as the HTML library presents it: either reading it
      throws, or these are the texts its selectors yield: the `.title h3`
      text, the `href` attribute of `.title h3 a` (absent when there is no
      such attribute), and the texts of `.rating_nums`, of the
      `.rating-info` span that says "人评价", of `.subject-cast` and of
      `.content p`. */
  datatype ResultNode =
    | Throws
    | Raw(titleText: string, href: Option<string>, ratingText: string,
          ratingPeopleText: string, castText: string, contentText: string)

  /** The loaded document: the text of its `title` element and its `.result`
      nodes in document order. */
  datatype Page = Page(titleText: string, nodes: seq<ResultNode>)

  /** How the single GET request ended. `Received` is a response of any
      status; `data` is the body, the empty string standing for every falsy
      body. `TransportError` is a rejection of the HTTP client that carries
      no response (a timeout has code "ECONNABORTED"). `NonErrorRejection`
      is a rejection with a value that is not an `Error`. */
  datatype Exchange =
    | Received(status: nat, data: string, page: Page)
    | TransportError(code: Option<string>, message: string)
    | NonErrorRejection

  /** What reaches the outer `catch`: an error of the HTTP client (with its
      code and the response it may carry), any other `Error`, or a value
      that is not an `Error` at all. */
  datatype Thrown =
    | ClientError(code: Option<string>, responseStatus: Option<nat>, message: string)
    | PlainError(message: string)
    | NonError

  const FailurePrefix: string := "爬取失败: "
  const TimeoutMessage: string := "请求超时，请稍后重试"
  const ResponseFailurePrefix: string := "请求失败: "
  const StatusPrefix: string := "请求失败，状态码: "
  const EmptyBody: string := "未收到响应数据"
  const Blocked: string := "访问被限制，需要验证码"
  const NoResults: string := "未找到相关结果"
  const Unknown: string := "未知错误"
  const ChallengeMarker: string := "验证"
  const TimeoutCode: string := "ECONNABORTED"

  /** The request's `validateStatus`: a response below 500 resolves, any
      other makes the client reject. */
  predicate StatusAccepted(status: nat) {
    status < 500
  }

  /** What every emitted result satisfies: title and link are non-empty, the
      title and the free-text fields carry no surrounding white space, and an
      optional field that is present is non-empty and trimmed. */
  predicate WellFormed(r: SearchResult) {
    r.title != [] && IsTrimmed(r.title) && r.link != []
    && (r.rating.Some? ==> r.rating.value != [] && IsTrimmed(r.rating.value))
    && (r.ratingPeople.Some? ==> r.ratingPeople.value != [] && IsTrimmed(r.ratingPeople.value))
    && IsTrimmed(r.info) && IsTrimmed(r.intro)
  }

  /** The spread `...(text && { field: text })`: the property exists exactly
      when the text is non-empty, and then holds that text. */
  function OptionalField(text: string): Option<string>
  {
    if text == [] then None else Some(text)
  }

  /** The body of the per-node `try`: the result built from one node, or
      nothing when the node throws or lacks a title or a link. */
  function ExtractNode(node: ResultNode): (r: Option<SearchResult>)
    ensures r.Some? ==> node.Raw? && node.href.Some? && r.value.link == node.href.value
    ensures r.Some? ==> r.value.link != [] && r.value.title != []
  {
    match node
    case Throws => None
    case Raw(titleText, href, ratingText, ratingPeopleText, castText, contentText) =>
      var title := NormaliseTitle(titleText);
      var link := href.GetOr("");
      if title != [] && link != [] then
        Some(SearchResult(title, link, OptionalField(Trim(ratingText)),
                          OptionalField(Trim(ratingPeopleText)), Trim(castText), Trim(contentText)))
      else
        None
  }

  /** The results of `nodes`, in order: what the `.each` loop leaves in
      `results` after visiting them. */
  function Collected(nodes: seq<ResultNode>): (rs: seq<SearchResult>)
    ensures |rs| <= |nodes|
  {
    Select(ExtractNode, nodes)
  }

  /** The `$(".result").each` loop: visits the nodes in document order, skips
      a node whose extraction throws (the `catch` only logs), and appends a
      result when its title and link are non-empty. The `Raw` branch of the
      loop body mirrors `ExtractNode`. */
  method CollectResults(nodes: seq<ResultNode>) returns (results: seq<SearchResult>)
    ensures results == Collected(nodes)
  {
    results := [];
    var i := 0;
    while i < |nodes|
      invariant 0 <= i <= |nodes|
      invariant results == Collected(nodes[..i])
    {
      ghost var step := Collected(nodes[..i + 1]);
      assert nodes[..i + 1][..i] == nodes[..i];
      assert step == Collected(nodes[..i]) + (if ExtractNode(nodes[i]).Some? then [ExtractNode(nodes[i]).value] else []);
      match nodes[i] {
        case Throws =>
          // the catch logs the error and goes on with the next node
        case Raw(titleText, href, ratingText, ratingPeopleText, castText, contentText) =>
          var title := NormaliseTitle(titleText);
          var link := href.GetOr("");
          var rating := Trim(ratingText);
          var ratingPeople := Trim(ratingPeopleText);
          var info := Trim(castText);
          var intro := Trim(contentText);
          assert ExtractNode(nodes[i]).Some? <==> title != [] && link != [];
          if title != [] && link != [] {
            results := results + [SearchResult(title, link, OptionalField(rating),
                                               OptionalField(ratingPeople), info, intro)];
          }
      }
      i := i + 1;
    }
    assert nodes[..|nodes|] == nodes;
  }

  /** The outer `catch`: how a thrown value becomes the message of the error
      the caller sees. */
  function Classify(t: Thrown): (message: string)
    ensures message == TimeoutMessage || FailurePrefix <= message || ResponseFailurePrefix <= message
  {
    match t
    case ClientError(code, responseStatus, message) =>
      if code == Some(TimeoutCode) then TimeoutMessage
      else if responseStatus.Some? then ResponseFailurePrefix + Decimal(responseStatus.value)
      else FailurePrefix + message
    case PlainError(message) => FailurePrefix + message
    case NonError => FailurePrefix + Unknown
  }

  /** The rejection of the HTTP client for a status that `validateStatus`
      refuses: it carries the response; the code is "ERR_BAD_RESPONSE" for
      a 5xx status and absent above that. */
  function BadResponse(status: nat): (t: Thrown)
    requires !StatusAccepted(status)
    ensures t.ClientError? && t.responseStatus == Some(status) && t.code != Some(TimeoutCode)
  {
    ClientError(if status < 600 then Some("ERR_BAD_RESPONSE") else None, Some(status),
                "Request failed with status code " + Decimal(status))
  }

  /** The body of the outer `try`: the results, or the value it throws. A
      status the client does not accept never reaches the body: the client
      rejects with an error that carries the response. */
  function Attempt(ex: Exchange): (r: Result<seq<SearchResult>, Thrown>)
    ensures r.Ok? ==> ex.Received? && ex.status == 200 && ex.data != [] && r.value != []
  {
    match ex
    case TransportError(code, message) => Err(ClientError(code, None, message))
    case NonErrorRejection => Err(NonError)
    case Received(status, data, page) =>
      if !StatusAccepted(status) then
        Err(BadResponse(status))
      else if status != 200 then Err(PlainError(StatusPrefix + Decimal(status)))
      else if data == [] then Err(PlainError(EmptyBody))
      else if Includes(page.titleText, ChallengeMarker) then Err(PlainError(Blocked))
      else
        var results := Collected(page.nodes);
        if results == [] then Err(PlainError(NoResults)) else Ok(results)
  }

  /** `scrapeDouban`: the results, or the message of the error it throws. */
  function Search(ex: Exchange): (r: Result<seq<SearchResult>, string>)
    ensures r.Ok? ==> ex.Received? && r.value != [] && |r.value| <= |ex.page.nodes|
  {
    match Attempt(ex)
    case Ok(results) => Ok(results)
    case Err(t) => Err(Classify(t))
  }

  /** `scrapeDouban` step by step: the checks in their order, the loop over
      the nodes, and the outer `catch`. Its case analysis mirrors `Attempt`
      followed by `Classify`. */
  method ScrapeDouban(ex: Exchange) returns (r: Result<seq<SearchResult>, string>)
    ensures r == Search(ex)
  {
    var outcome: Result<seq<SearchResult>, Thrown>;
    match ex {
      case TransportError(code, message) =>
        outcome := Err(ClientError(code, None, message));
      case NonErrorRejection =>
        outcome := Err(NonError);
      case Received(status, data, page) =>
        if !StatusAccepted(status) {
          outcome := Err(BadResponse(status));
        } else if status != 200 {
          outcome := Err(PlainError(StatusPrefix + Decimal(status)));
        } else if data == [] {
          outcome := Err(PlainError(EmptyBody));
        } else if Includes(page.titleText, ChallengeMarker) {
          outcome := Err(PlainError(Blocked));
        } else {
          var results := CollectResults(page.nodes);
          if |results| == 0 {
            outcome := Err(PlainError(NoResults));
          } else {
            outcome := Ok(results);
          }
        }
    }
    match outcome {
      case Ok(results) => r := Ok(results);
      case Err(t) => r := Err(Classify(t));
    }
  }
}
