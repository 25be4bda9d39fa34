/** The existence lookup: given the checksum of a file, ask the search endpoint whether a
    scan result already exists, and classify its answer. The request itself is not
    modelled; the classifier receives what the endpoint answered. */
module Search {
  import opened Text

  /** The search endpoint's URL template up to its single `%s` placeholder, which is
      the last thing in the template. */
  const SearchUrlPrefix: string := "https://virusscan.jotti.org/en-US/search/hash/"

  /** Marker in the page that the service sends when it rate-limits the client. */
  const RateLimitMarker: string := "Too many requests"

  /** Marker in the page that the service sends for an unknown checksum. */
  const NotFoundMarker: string := "Hash not found"

  const StatusOK: int := 200

  /** The response body as far as the client managed to read it. */
  datatype Body = Unreadable | Received(text: string)

  /** What the GET on the search URL produced: no response at all (a transport error or
      the client timeout), or a status code and a body. */
  datatype HttpReply = NoResponse | Response(status: int, body: Body)

  /** Why a lookup yields no verdict. */
  datatype LookupFailure = Transport | BodyUnreadable | UnexpectedStatus(code: int)

  /** The outcome of one lookup. `RateLimited` is the case in which the program
      terminates with exit status 2 instead of returning. */
  datatype Lookup =
    | LookupFailed(failure: LookupFailure)
    | RateLimited
    | NotFound(url: string)
    | Found(url: string)
  {
    /** The `found` flag returned beside the URL and the error. */
    predicate FoundFlag() {
      Found?
    }

    /** The URL returned beside the flag and the error: empty on every error path. */
    function ReportedUrl(): string {
      if NotFound? || Found? then url else ""
    }
  }

  /** The search URL for a checksum: the template with the checksum substituted. */
  function SearchUrl(checksum: string): (u: string)
    ensures |u| == |SearchUrlPrefix| + |checksum|
    ensures StartsWith(u, SearchUrlPrefix) && u[|SearchUrlPrefix|..] == checksum
  {
    SearchUrlPrefix + checksum
  }

  /** Distinct checksums give distinct search URLs. */
  lemma SearchUrlInjective(c1: string, c2: string)
    requires SearchUrl(c1) == SearchUrl(c2)
    ensures c1 == c2
  {
  }

  /** Decision rule applied to the endpoint's answer for `checksum`. The status is
      checked first and the body is read only on 200; on a readable body the rate-limit
      marker is tested before the not-found marker. */
  function Classify(checksum: string, reply: HttpReply): (r: Lookup)
    ensures r.LookupFailed? <==>
              !(reply.Response? && reply.status == StatusOK && reply.body.Received?)
    ensures r.LookupFailed? ==> !r.FoundFlag() && r.ReportedUrl() == ""
    ensures r == RateLimited <==>
              reply.Response? && reply.status == StatusOK && reply.body.Received? &&
              Contains(reply.body.text, RateLimitMarker)
    ensures (r.NotFound? || r.Found?) ==> r.url == SearchUrl(checksum)
  {
    match reply
    case NoResponse => LookupFailed(Transport)
    case Response(status, body) =>
      if status != StatusOK then
        LookupFailed(UnexpectedStatus(status))
      else
        match body
        case Unreadable => LookupFailed(BodyUnreadable)
        case Received(text) =>
          if Contains(text, RateLimitMarker) then RateLimited
          else if Contains(text, NotFoundMarker) then NotFound(SearchUrl(checksum))
          else Found(SearchUrl(checksum))
  }

  /** A status other than 200 is an error carrying that status, whatever the body is:
      the body is never looked at. */
  lemma NonOkStatusIgnoresBody(checksum: string, status: int, body: Body)
    requires status != StatusOK
    ensures Classify(checksum, Response(status, body)) == LookupFailed(UnexpectedStatus(status))
    ensures !Classify(checksum, Response(status, body)).FoundFlag()
    ensures Classify(checksum, Response(status, body)).ReportedUrl() == ""
  {
  }

  /** A page that carries the rate-limit marker anywhere ends the run, even when it also
      carries the not-found marker before or after it. */
  lemma RateLimitTakesPrecedence(checksum: string, pre: string, post: string)
    ensures Classify(checksum, Response(StatusOK, Received(pre + RateLimitMarker + post)))
            == RateLimited
  {
    ContainsInfix(pre, RateLimitMarker, post);
  }

  /** A page with the not-found marker and without the rate-limit marker is "not found",
      reported with the search URL. */
  lemma NotFoundMarkerMeansNotFound(checksum: string, pre: string, post: string)
    requires !Contains(pre + NotFoundMarker + post, RateLimitMarker)
    ensures var r := Classify(checksum, Response(StatusOK, Received(pre + NotFoundMarker + post)));
            r == NotFound(SearchUrl(checksum)) && !r.FoundFlag() && r.ReportedUrl() == SearchUrl(checksum)
  {
    ContainsInfix(pre, NotFoundMarker, post);
  }

  /** A page with neither marker means a scan result exists, reported with the search URL. */
  lemma NoMarkerMeansFound(checksum: string, text: string)
    requires !Contains(text, RateLimitMarker) && !Contains(text, NotFoundMarker)
    ensures var r := Classify(checksum, Response(StatusOK, Received(text)));
            r == Found(SearchUrl(checksum)) && r.FoundFlag() && r.ReportedUrl() == SearchUrl(checksum)
  {
  }

  /** On a readable 200 page the verdict is decided by the markers alone: exactly one of
      rate-limited, not-found and found, in that order of precedence. */
  lemma VerdictByMarkers(checksum: string, text: string)
    ensures var r := Classify(checksum, Response(StatusOK, Received(text)));
            && (r == RateLimited <==> Contains(text, RateLimitMarker))
            && (r.NotFound? <==> !Contains(text, RateLimitMarker) && Contains(text, NotFoundMarker))
            && (r.Found? <==> !Contains(text, RateLimitMarker) && !Contains(text, NotFoundMarker))
  {
  }
}
