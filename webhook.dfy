/** The HTTP handler: answers GET as a health check and runs the pipeline for
    a POST, mapping each outcome to a status code and a JSON body. */
module Webhook {
  import opened Wrappers
  import JsText
  import opened FormFields
  import opened FormData
  import opened Contact
  import opened SharePoint

  /** An incoming request. Reading the body may fail (`request.text()`
      rejects); its message is then reported. */
  datatype Request = Request(httpMethod: string, contentType: Option<string>, body: Result<string, string>)

  /** What the two body decoders make of the body: `JSON.parse` (None when it
      throws) and the percent-decoded pairs of `URLSearchParams`, in order. */
  datatype BodyParse = BodyParse(json: Option<FlatFields>, formPairs: seq<(string, string)>)

  datatype ResponseBody =
    | Running(message: string, version: string)
    | ErrorMessage(error: string)
    | Added(message: string, itemId: string, contact: string, registrationType: string)
    | Failed(error: string, details: string)

  /** `jsonContentType` says whether the response sets `Content-Type:
      application/json`. */
  datatype Response = Response(status: int, jsonContentType: bool, body: ResponseBody)

  const RunningMessage := "YBH Baseline Screening Webhook is running!"
  const Version := "1.0.0"
  const EmptyBodyError := "Empty request body"
  const InvalidJsonError := "Invalid JSON format"
  const MissingFieldsError := "Invalid form data - missing required fields"
  const AddedMessage := "Contact added successfully"
  const AddFailedError := "Failed to add contact to SharePoint list"
  const InternalError := "Internal server error"

  /** The body is parsed as JSON when the content type mentions it. */
  predicate IsJson(req: Request) {
    JsText.Includes(match req.contentType case Some(t) => t case None => "", "application/json")
  }

  /** A POST (any method but GET) whose body was read and is not empty. */
  predicate HasBody(req: Request) {
    req.httpMethod != "GET" && req.body.Success? && req.body.value != ""
  }

  /** The flat field map the handler works on, or None when JSON parsing failed. */
  function Decoded(req: Request, parse: BodyParse): Option<FlatFields> {
    if IsJson(req) then parse.json else Some(LastWins(parse.formPairs, |parse.formPairs|))
  }

  /** Extraction accepts a submission exactly when it has an email and a
      registration type. */
  predicate Accepted(fd: FlatFields) {
    Truthy(fd, Email) && Truthy(fd, RegType)
  }

  /** The handler. `date` is the outcome of converting the current time for
      the record (None when the conversion throws); `siteUrl` and `listName`
      are the configured target. */
  method HandleRequest(req: Request, parse: BodyParse, date: Option<string>,
                       siteUrl: string, listName: string, dir: Directory)
    returns (resp: Response, calls: seq<GraphCall>)
    ensures req.httpMethod == "GET" ==>
      resp == Response(200, true, Running(RunningMessage, Version)) && calls == []
    ensures req.httpMethod != "GET" && req.body.Failure? ==>
      resp == Response(500, true, Failed(InternalError, req.body.error)) && calls == []
    ensures req.httpMethod != "GET" && req.body == Success("") ==>
      resp == Response(400, false, ErrorMessage(EmptyBodyError)) && calls == []
    ensures HasBody(req) && Decoded(req, parse).None? ==>
      resp == Response(400, false, ErrorMessage(InvalidJsonError)) && calls == []
    ensures HasBody(req) && Decoded(req, parse).Some?
            && (date.None? || !Accepted(Decoded(req, parse).value)) ==>
      resp == Response(400, false, ErrorMessage(MissingFieldsError)) && calls == []
    ensures calls != [] ==>
      HasBody(req) && Decoded(req, parse).Some? && date.Some? && Accepted(Decoded(req, parse).value)
    ensures HasBody(req) && Decoded(req, parse).Some? && date.Some? && Accepted(Decoded(req, parse).value) ==>
      exists c, w ::
        && Extracted(Decoded(req, parse).value, date, Some(c))
        && WriteOutcome(c, siteUrl, listName, dir, w, calls)
        && resp == (if w.Written?
                    then Response(200, true, Added(AddedMessage, w.itemId, c.contactName, c.registrationType))
                    else Response(500, true, Failed(AddFailedError, w.detail)))
  {
    calls := [];
    if req.httpMethod == "GET" {
      return Response(200, true, Running(RunningMessage, Version)), calls;
    }

    if req.body.Failure? {
      return Response(500, true, Failed(InternalError, req.body.error)), calls;
    }
    var requestBody := req.body.value;
    if requestBody == "" {
      return Response(400, false, ErrorMessage(EmptyBodyError)), calls;
    }

    var formData: FlatFields;
    var contentType := match req.contentType case Some(t) => t case None => "";
    if JsText.Includes(contentType, "application/json") {
      if parse.json.None? {
        return Response(400, false, ErrorMessage(InvalidJsonError)), calls;
      }
      formData := parse.json.value;
    } else {
      formData := ParseFormData(parse.formPairs);
    }

    assert formData == Decoded(req, parse).value;
    var contactData := ExtractContactData(formData, date);
    if contactData.None? {
      return Response(400, false, ErrorMessage(MissingFieldsError)), calls;
    }
    var contact := contactData.value;

    var result;
    result, calls := AddToSharePointList(contact, siteUrl, listName, dir);
    if result.Written? {
      resp := Response(200, true, Added(AddedMessage, result.itemId, contact.contactName, contact.registrationType));
    } else {
      resp := Response(500, true, Failed(AddFailedError, result.detail));
    }
    assert Extracted(formData, date, Some(contact)) && WriteOutcome(contact, siteUrl, listName, dir, result, calls);
  }
}
