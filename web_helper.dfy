/**
 * WebHelper.GetWebResponseContent: one HTTP GET of a URL, returning the body
 * of the response. The remote server is an object that answers each URL with
 * a body of its choosing and keeps the list of URLs it has been sent.
 */
module WebHelper {
  class Server {
    /** The body the server returns for each URL. */
    const respond: string -> string
    /** Every URL requested so far, in order: what has left the machine. */
    ghost var requests: seq<string>

    constructor (respond: string -> string)
      ensures this.respond == respond && requests == []
    {
      this.respond := respond;
      requests := [];
    }

    /** One GET request: the URL is sent, and the response body comes back. */
    method GetWebResponseContent(url: string) returns (content: string)
      modifies this
      ensures requests == old(requests) + [url]
      ensures content == respond(url)
    {
      requests := requests + [url];
      content := respond(url);
    }
  }
}
