/**
 * Chains of builder calls on a fresh `TheMessager`, and what the verbs send
 * and return at the end of them.
 */
module MessagerScenarios {
  import opened Wrappers
  import opened Template
  import opened Messager
  import TemplateScenarios

  /**
   * A full chain on a fresh builder: `url("/users/:id", {id: 42})`, a bearer
   * token, then `get()`.
   */
  method AuthorisedGet(token: string, response: Response) returns (r: Result<Exchange, string>)
    ensures r.Ok?
    ensures r.value.request.url == "/users/42"
    ensures r.value.request.verb == None
    ensures r.value.request.init.headers.Some?
    ensures BearerToken(r.value.request.init.headers.value) == Some(token)
    ensures r.value.reply == Settle(response, None)
  {
    var m := new TheMessager();
    var params := map["id" := Num(42)];
    TemplateScenarios.NumericIdentifier();
    assert Templated("/users/:id", params).Ok?;
    var _ := m.Url("/users/:id", Some(params));
    assert m.url == "/users/42";
    m.WithBearerToken(token);
    r := m.Get(response);
  }

  /** A second token replaces the first one; nothing of the first remains. */
  method ReplacedToken(first: string, second: string) returns (headers: map<string, string>)
    ensures BearerToken(headers) == Some(second)
    ensures headers.Keys == {"Authorization", "connection"}
  {
    var m := new TheMessager();
    m.WithBearerToken(first);
    m.WithBearerToken(second);
    headers := m.config.headers.value;
    BearerRoundTrip(second);
  }

  /**
   * A failed fill keeps the previous URL: the builder still targets
   * `/users` after `url("/:a/:b/:a", {})` is refused.
   */
  method FailedFillKeepsUrl() returns (r: Result<(), TemplateError>, target: string)
    ensures r == Err(MissingParameters(["a", "b", "a"]))
    ensures target == "/users"
  {
    var m := new TheMessager();
    var _ := m.Url("/users", None);
    TemplateScenarios.RepeatedMissing();
    r := m.Url("/:a/:b/:a", Some(map[]));
    target := m.url;
  }

  /**
   * A fill can succeed and still leave an empty URL, which `get` then
   * refuses while `delete` sends it.
   */
  method EmptyFilledUrl(response: Response) returns (got: Result<Exchange, string>, deleted: Exchange)
    ensures got == Err("no url defined, use .url()")
    ensures deleted.request.url == ""
  {
    var m := new TheMessager();
    TemplateScenarios.BareMarkerEmptyValue();
    var _ := m.Url(":id", Some(map["id" := Str("")]));
    got := m.Get(response);
    deleted := m.Delete(response);
  }

  /**
   * Before any URL is set, get, post and patch are refused, while delete
   * goes ahead with the empty URL.
   */
  method BeforeUrl(body: Option<string>, response: Response)
    returns (got: Result<Exchange, string>, posted: Result<Exchange, string>, patched: Result<Exchange, string>, deleted: Exchange)
    ensures got == Err("no url defined, use .url()")
    ensures posted == Err("no url defined, please define one with .url()")
    ensures patched == Err("no url defined, please define one with .url()")
    ensures deleted == Exchange(Request("", RequestInit(None), Some("DELETE"), None), Deleted(response))
  {
    var m := new TheMessager();
    got := m.Get(response);
    posted := m.Post(body, response);
    patched := m.Patch(body, response);
    deleted := m.Delete(response);
  }
}
