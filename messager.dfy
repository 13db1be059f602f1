/**
 * The request builder (index.ts, `extractData` and the class `TheMessager`).
 *
 * The source keeps its state in static fields of the class; here, for calls
 * made on `TheMessager` itself, that state is the fields of one object, and
 * every static method is a method on it. Setting the URL, the schema or the bearer token changes the
 * state; the HTTP verbs only read it and describe the `fetch` call they make
 * together with what they return for a given response.
 */
module Messager {
  import opened Wrappers
  import opened Template

  /** What `extractData` reads from a successful response. */
  datatype Payload = TextBody | JsonBody | NoPayload

  /** A validation schema, known by name only. */
  datatype Schema = Schema(name: string)

  /** The request options kept between calls; only the headers are ever set. */
  datatype RequestInit = RequestInit(headers: Option<map<string, string>>)

  /**
   * The arguments of one `fetch` call: the target, the options, the HTTP
   * method (`None`: no method given, so `fetch` issues a GET) and the body.
   */
  datatype Request = Request(url: string, init: RequestInit, verb: Option<string>, body: Option<string>)

  /** The parts of a `fetch` response the builder looks at. */
  datatype Response = Response(ok: bool, contentType: Option<string>)

  /** The data handed back: the payload read, passed through the schema when one is set. */
  datatype Data = Data(payload: Payload, parsedBy: Option<Schema>)

  /** `{ rs }` or `{ rs, data }` from get, post and patch; `{ req: rs }` from delete. */
  datatype Reply = Reply(rs: Response, data: Option<Data>) | Deleted(req: Response)

  /** One call of a verb: the request sent and the value returned. */
  datatype Exchange = Exchange(request: Request, reply: Reply)

  /**
   * `extractData`: the `Content-Type` header must equal one of the two media
   * types exactly; anything else, a parameterised type such as
   * `application/json; charset=utf-8` included, reads no body.
   */
  function ExtractData(contentType: Option<string>): (p: Payload)
    ensures p == TextBody <==> contentType == Some("application/text")
    ensures p == JsonBody <==> contentType == Some("application/json")
  {
    if contentType == Some("application/text") then TextBody
    else if contentType == Some("application/json") then JsonBody
    else NoPayload
  }

  /** What get, post and patch return once the response has arrived. */
  function Settle(rs: Response, schema: Option<Schema>): (r: Reply)
    ensures r.Reply? && r.rs == rs
    ensures r.data.Some? <==> rs.ok
    ensures rs.ok ==> r.data == Some(Data(ExtractData(rs.contentType), schema))
  {
    if !rs.ok then Reply(rs, None) else Reply(rs, Some(Data(ExtractData(rs.contentType), schema)))
  }

  /** The headers `withBearerToken` installs. */
  function BearerHeaders(token: string): (h: map<string, string>)
    ensures "Authorization" in h && "connection" in h
  {
    map["Authorization" := "Bearer " + token, "connection" := "keepalive"]
  }

  /** The token a server reads back from an `Authorization: Bearer …` header. */
  function BearerToken(headers: map<string, string>): Option<string>
  {
    if "Authorization" in headers && |headers["Authorization"]| >= 7 && headers["Authorization"][..7] == "Bearer "
    then Some(headers["Authorization"][7..])
    else None
  }

  /** The installed headers carry exactly the given token, and keep the connection open. */
  lemma BearerRoundTrip(token: string)
    ensures BearerToken(BearerHeaders(token)) == Some(token)
    ensures BearerHeaders(token).Keys == {"Authorization", "connection"}
    ensures BearerHeaders(token)["connection"] == "keepalive"
  {
    var value := "Bearer " + token;
    assert BearerHeaders(token)["Authorization"] == value;
    assert value[..7] == "Bearer " && value[7..] == token;
  }

  class TheMessager {
    var url: string
    var schema: Option<Schema>
    var config: RequestInit

    /** The initial values of the static fields. */
    constructor ()
      ensures url == "" && schema == None && config == RequestInit(None)
    {
      url := "";
      schema := None;
      config := RequestInit(None);
    }

    /**
     * `url(url, params?)`: without a map the pattern is stored as given;
     * with one (even an empty one) it is filled in first, and a failure
     * leaves the stored URL as it was.
     */
    method Url(pattern: string, params: Option<map<string, Value>>) returns (r: Result<(), TemplateError>)
      modifies this
      ensures params.None? ==> r.Ok? && url == pattern
      ensures params.Some? && Templated(pattern, params.value).Ok? ==>
                r.Ok? && url == Templated(pattern, params.value).value
      ensures params.Some? && Templated(pattern, params.value).Err? ==>
                r == Err(Templated(pattern, params.value).error) && url == old(url)
      ensures schema == old(schema) && config == old(config)
    {
      if params.None? {
        url := pattern;
        return Ok(());
      }
      var filled := UrlTemplate(pattern, params.value);
      if filled.Err? {
        return Err(filled.error);
      }
      url := filled.value;
      return Ok(());
    }

    /** `schema(schema)`. */
    method SetSchema(s: Schema)
      modifies this
      ensures schema == Some(s)
      ensures url == old(url) && config == old(config)
    {
      schema := Some(s);
    }

    /** `withBearerToken(token)`: the headers are replaced as a whole, not merged. */
    method WithBearerToken(token: string)
      modifies this
      ensures config.headers == Some(BearerHeaders(token))
      ensures BearerToken(config.headers.value) == Some(token)
      ensures url == old(url) && schema == old(schema)
    {
      config := config.(headers := Some(BearerHeaders(token)));
      BearerRoundTrip(token);
    }

    /** `get()`: refused without a URL; otherwise a request with the stored options only. */
    method Get(response: Response) returns (r: Result<Exchange, string>)
      ensures r.Err? <==> url == ""
      ensures r.Err? ==> r.error == "no url defined, use .url()"
      ensures r.Ok? ==> r.value.request == Request(url, config, None, None)
      ensures r.Ok? ==> r.value.reply == Settle(response, schema)
    {
      if url == "" {
        return Err("no url defined, use .url()");
      }
      var request := Request(url, config, None, None);
      return Ok(Exchange(request, Settle(response, schema)));
    }

    /**
     * `post(body?)`: refused without a URL; otherwise the stored options with
     * the serialised body, if any, and the method `POST`.
     */
    method Post(body: Option<string>, response: Response) returns (r: Result<Exchange, string>)
      ensures r.Err? <==> url == ""
      ensures r.Err? ==> r.error == "no url defined, please define one with .url()"
      ensures r.Ok? ==> r.value.request == Request(url, config, Some("POST"), body)
      ensures r.Ok? ==> r.value.reply == Settle(response, schema)
    {
      if url == "" {
        return Err("no url defined, please define one with .url()");
      }
      var request := Request(url, config, Some("POST"), body);
      return Ok(Exchange(request, Settle(response, schema)));
    }

    /** `patch(body?)`: as `post`, with the method `PATCH`. */
    method Patch(body: Option<string>, response: Response) returns (r: Result<Exchange, string>)
      ensures r.Err? <==> url == ""
      ensures r.Err? ==> r.error == "no url defined, please define one with .url()"
      ensures r.Ok? ==> r.value.request == Request(url, config, Some("PATCH"), body)
      ensures r.Ok? ==> r.value.reply == Settle(response, schema)
    {
      if url == "" {
        return Err("no url defined, please define one with .url()");
      }
      var request := Request(url, config, Some("PATCH"), body);
      return Ok(Exchange(request, Settle(response, schema)));
    }

    /**
     * `delete()`: no check on the URL, so an empty one is sent as it is; the
     * response comes back unread, under `req`.
     */
    method Delete(response: Response) returns (x: Exchange)
      ensures x.request == Request(url, config, Some("DELETE"), None)
      ensures x.reply == Deleted(response)
    {
      x := Exchange(Request(url, config, Some("DELETE"), None), Deleted(response));
    }
  }
}
