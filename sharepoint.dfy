/** Writing a contact to the SharePoint list (`addToSharePointList`): splitting
    the site URL, finding the list by name, mapping the contact onto the
    list's columns and issuing the three directory calls. The directory's
    answers are inputs: the model decides only which calls are made, with what,
    and what the outcome is. */
module SharePoint {
  import opened Wrappers
  import JsText
  import opened Contact

  /** A column value of the created item. */
  datatype FieldValue = Text(text: string) | Number(number: int)

  type ItemFields = map<string, FieldValue>

  /** A list as the directory reports it. */
  datatype ListInfo = ListInfo(id: string, displayName: string, name: string)

  /** A failed call: the body of the server's error response, when there was
      one, and the error's message. */
  datatype RemoteError = RemoteError(responseData: Option<string>, message: string)

  /** `error.response?.data || error.message`. */
  function ErrorDetail(e: RemoteError): string {
    match e.responseData
    case Some(d) => if d != "" then d else e.message
    case None => e.message
  }

  /** The detail is the response body when there is a non-empty one, and the
      error's message otherwise; so it is empty only when both are. */
  lemma ErrorDetailFallback(e: RemoteError)
    ensures e.responseData.None? || e.responseData == Some("") ==> ErrorDetail(e) == e.message
    ensures e.responseData.Some? && e.responseData.value != "" ==> ErrorDetail(e) == e.responseData.value
    ensures ErrorDetail(e) == "" <==> e.message == "" && (e.responseData.None? || e.responseData == Some(""))
  {
  }

  /** The answers of the identity provider and the Graph directory: the bearer
      token, the site `id` returned for a site URL, the lists returned for a
      lists URL, and the `id` of the item created by a POST. */
  datatype Directory = Directory(
    token: Result<string, RemoteError>,
    siteAt: string -> Result<string, RemoteError>,
    listsAt: string -> Result<seq<ListInfo>, RemoteError>,
    create: (string, ItemFields) -> Result<string, RemoteError>)

  /** A request sent to the directory, with the bearer token it carries. */
  datatype GraphCall =
    | GraphGet(url: string, bearer: string)
    | GraphPost(url: string, fields: ItemFields, bearer: string)

  datatype WriteResult = Written(itemId: string) | WriteFailed(detail: string)

  const GraphSites := "https://graph.microsoft.com/v1.0/sites/"
  const Scheme := "https://"

  // ---- Site URL ----

  /** `siteUrl.replace("https://", "")`: the first occurrence, wherever it is. */
  function StripScheme(siteUrl: string): (r: string)
    ensures (forall i :: !JsText.OccursAt(siteUrl, Scheme, i)) ==> r == siteUrl
    ensures forall i ::
      (JsText.OccursAt(siteUrl, Scheme, i) && forall j :: 0 <= j < i ==> !JsText.OccursAt(siteUrl, Scheme, j))
      ==> r == siteUrl[..i] + siteUrl[i + |Scheme|..]
  {
    JsText.ReplaceFirst(siteUrl, Scheme, "")
  }

  /** `stripped.split("/")[0]`. */
  function SiteDomain(siteUrl: string): string {
    JsText.Split(StripScheme(siteUrl), '/')[0]
  }

  /** `"/" + stripped.split("/").slice(1).join("/")`. */
  function SitePath(siteUrl: string): string {
    "/" + JsText.Join(JsText.Split(StripScheme(siteUrl), '/')[1..], "/")
  }

  /** The domain never contains a slash; domain and path rebuild the stripped
      URL when it has a slash, and a URL without one gets the path "/". */
  lemma SiteUrlSplit(siteUrl: string)
    ensures '/' !in SiteDomain(siteUrl)
    ensures '/' in StripScheme(siteUrl) ==> SiteDomain(siteUrl) + SitePath(siteUrl) == StripScheme(siteUrl)
    ensures '/' !in StripScheme(siteUrl) ==>
      SiteDomain(siteUrl) == StripScheme(siteUrl) && SitePath(siteUrl) == "/"
  {
    var t := StripScheme(siteUrl);
    var parts := JsText.Split(t, '/');
    assert SiteDomain(siteUrl) == parts[0];
    assert SitePath(siteUrl) == "/" + JsText.Join(parts[1..], "/");
    FirstSegmentSplit(t);
  }

  lemma FirstSegmentSplit(t: string)
    ensures var parts := JsText.Split(t, '/');
      && '/' !in parts[0]
      && ('/' in t ==> parts[0] + "/" + JsText.Join(parts[1..], "/") == t)
      && ('/' !in t ==> parts[0] == t && parts[1..] == [])
  {
    var parts := JsText.Split(t, '/');
    JsText.SplitJoin(t, '/');
    JsText.SplitSingle(t, '/');
    if '/' in t {
      assert JsText.Join(parts, "/") == parts[0] + "/" + JsText.Join(parts[1..], "/");
    }
  }

  /** A URL that starts with the scheme loses exactly that prefix. */
  lemma StripSchemePrefix(rest: string)
    ensures StripScheme("https://" + rest) == rest
  {
    var s := "https://" + rest;
    assert JsText.OccursAt(s, "https://", 0) by {
      assert s[0..8] == "https://";
    }
  }

  /** The site lookup: `sites/{domain}:{path}`. */
  function SiteApiUrl(siteUrl: string): (r: string)
    ensures var t := StripScheme(siteUrl);
      '/' !in t ==> r == GraphSites + t + ":/"
    ensures var t := StripScheme(siteUrl);
      forall i :: 0 <= i < |t| && t[i] == '/' && '/' !in t[..i] ==>
        r == GraphSites + t[..i] + ":" + t[i..]
  {
    SiteUrlSplit(siteUrl);
    FirstSlash(StripScheme(siteUrl), SiteDomain(siteUrl), SitePath(siteUrl));
    GraphSites + SiteDomain(siteUrl) + ":" + SitePath(siteUrl)
  }

  /** A slash-free `d` followed by a `p` that starts with a slash: `d` ends
      exactly at the first slash of `d + p`. */
  lemma FirstSlash(t: string, d: string, p: string)
    requires '/' !in d && |p| >= 1 && p[0] == '/'
    requires '/' in t ==> t == d + p
    ensures forall i :: 0 <= i < |t| && t[i] == '/' && '/' !in t[..i] ==> d == t[..i] && p == t[i..]
  {
    forall i | 0 <= i < |t| && t[i] == '/' && '/' !in t[..i]
      ensures d == t[..i] && p == t[i..]
    {
      assert t[|d|] == '/';
    }
  }

  /** The lists request of a site; the site id can be read back from it. */
  function ListsUrl(siteId: string): (r: string)
    ensures |r| == |GraphSites| + |siteId| + 6
    ensures r[..|GraphSites|] == GraphSites && r[|GraphSites|..|r| - 6] == siteId
  {
    GraphSites + siteId + "/lists"
  }

  /** The item creation request: below the site's lists request, and the list
      id can be read back from it. */
  function ItemsUrl(siteId: string, listId: string): (r: string)
    ensures |r| == |ListsUrl(siteId)| + |listId| + 7
    ensures r[..|ListsUrl(siteId)|] == ListsUrl(siteId)
    ensures r[|ListsUrl(siteId)| + 1..|r| - 6] == listId
  {
    GraphSites + siteId + "/lists/" + listId + "/items"
  }

  // ---- List lookup ----

  predicate Matches(l: ListInfo, listName: string) {
    l.displayName == listName || l.name == listName
  }

  /** `lists[i]` is the first list that matches. */
  predicate FirstMatch(lists: seq<ListInfo>, listName: string, i: int) {
    0 <= i < |lists| && Matches(lists[i], listName)
    && forall j :: 0 <= j < i ==> !Matches(lists[j], listName)
  }

  /** `lists.find(l => l.displayName === listName || l.name === listName)`. */
  function FindList(lists: seq<ListInfo>, listName: string): (r: Option<ListInfo>)
    ensures r.None? <==> forall i :: 0 <= i < |lists| ==> !Matches(lists[i], listName)
    ensures r.Some? ==> exists i :: FirstMatch(lists, listName, i) && lists[i] == r.value
  {
    if lists == [] then None
    else if Matches(lists[0], listName) then
      assert FirstMatch(lists, listName, 0);
      Some(lists[0])
    else
      var r := FindList(lists[1..], listName);
      if r.Some? then
        var i :| FirstMatch(lists[1..], listName, i) && lists[1..][i] == r.value;
        assert FirstMatch(lists, listName, i + 1);
        r
      else
        assert forall i :: 1 <= i < |lists| ==> lists[i] == lists[1..][i - 1];
        r
  }

  function DisplayNames(lists: seq<ListInfo>): (names: seq<string>)
    ensures |names| == |lists|
    ensures forall i :: 0 <= i < |lists| ==> names[i] == lists[i].displayName
  {
    seq(|lists|, i requires 0 <= i < |lists| => lists[i].displayName)
  }

  const NotFoundPrefix := "List '"
  const NotFoundMiddle := "' not found. Available lists: "

  /** The message of the error thrown when no list matches. */
  function NotFoundMessage(listName: string, lists: seq<ListInfo>): string {
    NotFoundPrefix + listName + NotFoundMiddle + JsText.Join(DisplayNames(lists), ", ")
  }

  /** The not-found message names the list that was asked for and every list
      the site has, by display name. */
  lemma NotFoundMessageNamesAll(listName: string, lists: seq<ListInfo>)
    ensures JsText.Includes(NotFoundMessage(listName, lists), listName)
    ensures forall i :: 0 <= i < |lists| ==>
      JsText.Includes(NotFoundMessage(listName, lists), lists[i].displayName)
  {
    var joined := JsText.Join(DisplayNames(lists), ", ");
    var head := NotFoundPrefix + listName + NotFoundMiddle;
    assert NotFoundMessage(listName, lists) == head + joined;
    assert JsText.OccursAt(head + joined, listName, |NotFoundPrefix|) by {
      assert (head + joined)[|NotFoundPrefix|..|NotFoundPrefix| + |listName|] == listName;
    }
    forall i | 0 <= i < |lists|
      ensures JsText.Includes(head + joined, lists[i].displayName)
    {
      JsText.JoinContains(DisplayNames(lists), ", ", i);
      var k :| JsText.OccursAt(joined, lists[i].displayName, k);
      JsText.OccursInConcat(head, joined, lists[i].displayName, k);
    }
  }

  // ---- List item ----

  const CommonColumns: set<string> :=
    {"Title", "RegistrationType", "ParentName", "Email", "Phone", "Notes", "Status", "SubmissionDate"}

  /** The shared overflow columns a registration type writes. */
  function TypeColumns(registrationType: string): set<string> {
    if registrationType == "Parent" || registrationType == "Player" then {"SchoolName", "NumberofChildren"}
    else if registrationType == "Club" then {"SchoolName", "NumberofChildren", "SportType"}
    else {}
  }

  /** The columns of the item created for contact `c`: the common columns
      copied from the record (the title falling back to the email), then, by
      capitalised registration type, the name-like and count-like columns
      filled from that type's sub-fields, with "" and 0 where the record has
      none, and a count of exactly 1 for a player. */
  ghost predicate IsListItemFor(fields: ItemFields, c: ContactRecord) {
    && fields.Keys == CommonColumns + TypeColumns(c.registrationType)
    && fields["Title"] == Text(if c.contactName != "" then c.contactName else c.email)
    && fields["RegistrationType"] == Text(c.registrationType)
    && fields["ParentName"] == Text(c.contactName)
    && fields["Email"] == Text(c.email)
    && fields["Phone"] == Text(c.phone)
    && fields["Notes"] == Text(c.additionalNotes)
    && fields["Status"] == Text(c.status)
    && fields["SubmissionDate"] == Text(c.submissionDate)
    && (c.registrationType == "Parent" ==>
          && fields["SchoolName"] == Text(if c.details.ParentDetails? then c.details.schoolName else "")
          && fields["NumberofChildren"] == Number(if c.details.ParentDetails? then c.details.numberOfChildren else 0))
    && (c.registrationType == "Player" ==>
          && fields["SchoolName"] == Text(if c.details.PlayerDetails? then c.details.playerClubName else "")
          && fields["NumberofChildren"] == Number(1))
    && (c.registrationType == "Club" ==>
          && fields["SchoolName"] == Text(if c.details.ClubDetails? then c.details.clubName else "")
          && fields["NumberofChildren"] == Number(if c.details.ClubDetails? then c.details.clubNumberOfPlayers else 0)
          && fields["SportType"] == Text(if c.details.ClubDetails? then c.details.clubSportType else ""))
  }

  /** Builds `listItem.fields`: the common columns first, then the type's
      columns, set branch by branch. */
  method BuildListItem(c: ContactRecord) returns (fields: ItemFields)
    ensures IsListItemFor(fields, c)
  {
    fields := map[
      "Title" := Text(if c.contactName != "" then c.contactName else c.email),
      "RegistrationType" := Text(c.registrationType),
      "ParentName" := Text(c.contactName),
      "Email" := Text(c.email),
      "Phone" := Text(c.phone),
      "Notes" := Text(c.additionalNotes),
      "Status" := Text(c.status),
      "SubmissionDate" := Text(c.submissionDate)];
    if c.registrationType == "Parent" {
      var school, children := "", 0;
      if c.details.ParentDetails? {
        school, children := c.details.schoolName, c.details.numberOfChildren;
      }
      fields := fields["SchoolName" := Text(school)];
      fields := fields["NumberofChildren" := Number(children)];
    } else if c.registrationType == "Player" {
      var club := if c.details.PlayerDetails? then c.details.playerClubName else "";
      fields := fields["SchoolName" := Text(club)];
      fields := fields["NumberofChildren" := Number(1)];
    } else if c.registrationType == "Club" {
      var club, players, sport := "", 0, "";
      if c.details.ClubDetails? {
        club, players, sport := c.details.clubName, c.details.clubNumberOfPlayers, c.details.clubSportType;
      }
      fields := fields["SchoolName" := Text(club)];
      fields := fields["NumberofChildren" := Number(players)];
      fields := fields["SportType" := Text(sport)];
    }
  }

  // ---- The write ----

  /** What `addToSharePointList` does for contact `c`: the calls it issues,
      in order, and the outcome it reports. Each step runs only after the
      previous one succeeded; each failure stops the chain with its detail,
      and the item is posted only when the list was found. */
  ghost predicate WriteOutcome(c: ContactRecord, siteUrl: string, listName: string, dir: Directory,
                               r: WriteResult, calls: seq<GraphCall>) {
    && |calls| <= 3
    && (calls == [] <==> dir.token.Failure?)
    && (calls == [] ==> r == WriteFailed(ErrorDetail(dir.token.error)))
    && (|calls| >= 1 ==> dir.token.Success? && calls[0] == GraphGet(SiteApiUrl(siteUrl), dir.token.value))
    && (|calls| == 1 ==>
          var site := dir.siteAt(SiteApiUrl(siteUrl));
          site.Failure? && r == WriteFailed(ErrorDetail(site.error)))
    && (|calls| >= 2 ==>
          var site := dir.siteAt(SiteApiUrl(siteUrl));
          site.Success? && calls[1] == GraphGet(ListsUrl(site.value), dir.token.value))
    && (|calls| == 2 ==>
          var lists := dir.listsAt(calls[1].url);
          || (lists.Failure? && r == WriteFailed(ErrorDetail(lists.error)))
          || (lists.Success? && FindList(lists.value, listName).None?
              && r == WriteFailed(NotFoundMessage(listName, lists.value))))
    && (|calls| == 3 ==>
          var siteId := dir.siteAt(SiteApiUrl(siteUrl)).value;
          var lists := dir.listsAt(calls[1].url);
          var post := calls[2];
          && lists.Success? && FindList(lists.value, listName).Some?
          && post.GraphPost? && post.bearer == dir.token.value
          && post.url == ItemsUrl(siteId, FindList(lists.value, listName).value.id)
          && IsListItemFor(post.fields, c)
          && r == match dir.create(post.url, post.fields)
                  case Success(id) => Written(id)
                  case Failure(e) => WriteFailed(ErrorDetail(e)))
  }

  /** `addToSharePointList`. */
  method AddToSharePointList(c: ContactRecord, siteUrl: string, listName: string, dir: Directory)
    returns (r: WriteResult, calls: seq<GraphCall>)
    ensures WriteOutcome(c, siteUrl, listName, dir, r, calls)
  {
    calls := [];
    if dir.token.Failure? {
      return WriteFailed(ErrorDetail(dir.token.error)), calls;
    }
    var bearer := dir.token.value;

    var siteApiUrl := SiteApiUrl(siteUrl);
    var getSite := GraphGet(siteApiUrl, bearer);
    calls := [getSite];
    var site := dir.siteAt(siteApiUrl);
    if site.Failure? {
      return WriteFailed(ErrorDetail(site.error)), calls;
    }
    var siteId := site.value;

    var listsUrl := ListsUrl(siteId);
    var getLists := GraphGet(listsUrl, bearer);
    calls := [getSite, getLists];
    var lists := dir.listsAt(listsUrl);
    if lists.Failure? {
      return WriteFailed(ErrorDetail(lists.error)), calls;
    }

    var target := FindList(lists.value, listName);
    if target.None? {
      return WriteFailed(NotFoundMessage(listName, lists.value)), calls;
    }

    var fields := BuildListItem(c);
    var itemsUrl := ItemsUrl(siteId, target.value.id);
    calls := [getSite, getLists, GraphPost(itemsUrl, fields, bearer)];
    var created := dir.create(itemsUrl, fields);
    if created.Failure? {
      return WriteFailed(ErrorDetail(created.error)), calls;
    }
    return Written(created.value), calls;
  }

  /** The write reports success exactly when it posted the item and the POST
      succeeded, and then reports the created item's id. The first two calls,
      when issued, are GETs: the only POST is the last call. */
  lemma WrittenIffPosted(c: ContactRecord, siteUrl: string, listName: string, dir: Directory,
                         r: WriteResult, calls: seq<GraphCall>)
    requires WriteOutcome(c, siteUrl, listName, dir, r, calls)
    ensures r.Written? <==>
      |calls| == 3 && calls[2].GraphPost? && dir.create(calls[2].url, calls[2].fields).Success?
    ensures r.Written? ==> r.itemId == dir.create(calls[2].url, calls[2].fields).value
    ensures forall k :: 0 <= k < |calls| && k < 2 ==> calls[k].GraphGet?
  {
  }
}
