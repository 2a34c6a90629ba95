/**
 * The retry loop of get_listings (scraper_module.py). The HTTP client, the clock and the HTML
 * parser are outside the model: what the server does on each attempt is a parameter (a
 * function from the URL and the attempt number to what came back), the parsed page is its
 * text, and every sleep is recorded instead of performed.
 */
module Fetch {
  import opened Text
  import opened Wrappers

  const ListingsUrl: string := "https://www.deanza.edu/schedule/listings.html"

  /** What one request gave: an exception from the client, or a response. */
  datatype Reply =
    | Raised(message: string)
    | Response(status: int, reason: string, text: string, title: Option<string>)

  /** Why an attempt failed, one constructor per exception get_listings raises or catches. */
  datatype AttemptError =
    | ClientError(message: string)
    | HttpStatus(status: int, reason: string)
    | EmptyPage
    | CloudflareCheck
    | AccessDenied
    | ErrorPage(title: string)

  /** The exception get_listings raises once every attempt has failed. */
  datatype FetchError = Failed(attempts: int, lastError: Option<AttemptError>)

  /** f"{LISTINGS_URL}?dept={department}&t={term}" */
  function QueryUrl(department: string, term: string): (url: string)
    ensures |url| == |ListingsUrl| + 6 + |department| + 3 + |term|
    ensures url[..|ListingsUrl|] == ListingsUrl
    ensures url[|ListingsUrl| + 6..|ListingsUrl| + 6 + |department|] == department
    ensures url[|url| - |term|..] == term
  {
    ListingsUrl + "?dept=" + department + "&t=" + term
  }

  /** The checks one attempt makes on what came back, in their order; Ok holds the page text. */
  function CheckReply(reply: Reply): (r: Result<string, AttemptError>)
    ensures r.Ok? ==> reply.Response? && reply.status == 200 && |reply.text| >= 100 && r.value == reply.text
  {
    match reply
    case Raised(message) => Err(ClientError(message))
    case Response(status, reason, text, title) =>
      var pageLower := Lower(text);
      if status != 200 then Err(HttpStatus(status, reason))
      else if text == [] || |text| < 100 then Err(EmptyPage)
      else if Contains(pageLower, "cloudflare") && Contains(pageLower, "checking your browser") then Err(CloudflareCheck)
      else if Contains(pageLower, "error") && Contains(pageLower, "403") then Err(AccessDenied)
      else if title.Some? && Contains(Lower(title.value), "error") then Err(ErrorPage(title.value))
      else Ok(text)
  }

  /** The sleeps before retries 1 .. n: (attempt + 1) * 2 seconds after failed attempt number attempt. */
  function Backoff(n: nat): (ws: seq<nat>)
    ensures |ws| == n
    ensures forall j :: 0 <= j < n ==> ws[j] == 2 * (j + 1)
  {
    if n == 0 then [] else Backoff(n - 1) + [2 * n]
  }

  function Total(ws: seq<nat>): nat {
    if ws == [] then 0 else Total(ws[..|ws| - 1]) + ws[|ws| - 1]
  }

  /** Waiting before each of n retries takes n * (n + 1) seconds in all. */
  lemma {:induction false} BackoffTotal(n: nat)
    ensures Total(Backoff(n)) == n * (n + 1)
  {
    if n > 0 {
      var ws := Backoff(n);
      assert ws[..|ws| - 1] == Backoff(n - 1);
      BackoffTotal(n - 1);
    }
  }

  /** Attempt k succeeds. */
  predicate Succeeds(server: (string, nat) -> Reply, url: string, k: nat) {
    CheckReply(server(url, k)).Ok?
  }

  /**
   * get_listings: up to maxRetries attempts, returning the first page that passes the checks;
   * after each failed attempt but the last, the back-off sleep is recorded in waits. When
   * every attempt fails, the error names maxRetries and the last attempt's error.
   */
  method GetListings(department: string, term: string, maxRetries: int, server: (string, nat) -> Reply)
    returns (result: Result<string, FetchError>, attempts: nat, waits: seq<nat>)
    ensures var url := QueryUrl(department, term);
      && attempts <= (if maxRetries < 0 then 0 else maxRetries)
      && (forall k :: 0 <= k < attempts - 1 ==> !Succeeds(server, url, k))
      && (result.Ok? <==> attempts > 0 && Succeeds(server, url, attempts - 1))
      && (result.Ok? ==> result.value == CheckReply(server(url, attempts - 1)).value && waits == Backoff(attempts - 1))
      && (result.Err? ==> attempts == (if maxRetries < 0 then 0 else maxRetries))
      && (result.Err? ==> result.error.attempts == maxRetries)
      && (result.Err? && attempts == 0 ==> result.error.lastError == None && waits == [])
      && (result.Err? && attempts > 0 ==>
            result.error.lastError == Some(CheckReply(server(url, attempts - 1)).error) && waits == Backoff(attempts - 1))
  {
    var url := QueryUrl(department, term);
    var lastError: Option<AttemptError> := None;
    waits := [];
    attempts := 0;
    var attempt := 0;
    while attempt < maxRetries
      invariant 0 <= attempt && (attempt <= maxRetries || attempt == 0)
      invariant attempts == attempt
      invariant forall k :: 0 <= k < attempt ==> !Succeeds(server, url, k)
      invariant attempt == 0 ==> lastError == None && waits == []
      invariant attempt > 0 ==> CheckReply(server(url, attempt - 1)).Err? && lastError == Some(CheckReply(server(url, attempt - 1)).error)
      invariant attempt > 0 ==> waits == Backoff(attempt - 1) + (if attempt < maxRetries then [2 * attempt] else [])
      decreases maxRetries - attempt
    {
      attempts := attempt + 1;
      var checked := CheckReply(server(url, attempt));
      if checked.Ok? {
        result := Ok(checked.value);
        if attempt > 0 {
          assert waits == Backoff(attempt - 1) + [2 * attempt];
        }
        return;
      }
      lastError := Some(checked.error);
      if attempt < maxRetries - 1 {
        var waitTime := (attempt + 1) * 2;
        waits := waits + [waitTime];
      }
      attempt := attempt + 1;
    }
    result := Err(Failed(maxRetries, lastError));
  }
}
