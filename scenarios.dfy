/**
 * Worked cases of URL templating: the common one-parameter resource path,
 * values that need escaping, and the edge cases of first-occurrence
 * replacement, repeated names and absent markers.
 */
module TemplateScenarios {
  import opened Wrappers
  import opened Template
  import Text
  import UriEncoding
  import NumberText

  /**
   * A path `/<resource>/:<key>` whose fixed part holds neither `/` nor `:`
   * becomes `/<resource>/<encoded value>`.
   */
  lemma ResourcePath(resource: string, key: string, params: map<string, Value>)
    requires '/' !in resource && ':' !in resource && '/' !in key
    requires Defined(params, key)
    ensures Templated("/" + resource + "/:" + key, params) == Ok("/" + resource + "/" + Encoded(params[key]))
  {
    var url := "/" + resource + "/:" + key;
    var segments := ["", resource, [':'] + key];
    assert '/' !in [':'] + key;
    Text.JoinFront(segments, "/");
    Text.JoinFront(segments[1..], "/");
    assert segments[1..][1..] == [[':'] + key];
    assert Text.Join(segments, "/") == url;
    Text.SplitJoin(segments, '/');
    ResourcePathShape(resource, key, params);
    TemplatedFillsMarkers(url, params);
    ResourcePathFilled(resource, key, params);
  }

  lemma ResourcePathShape(resource: string, key: string, params: map<string, Value>)
    requires ':' !in resource
    requires Defined(params, key)
    ensures MarkersDefined(["", resource, [':'] + key], params)
    ensures OnlyMarkersHaveColons(["", resource, [':'] + key])
    ensures Markers(["", resource, [':'] + key]) != []
  {
    var segments := ["", resource, [':'] + key];
    assert segments[2][1..] == key;
    assert IsMarker(segments[2]);
    assert segments[2..] == [segments[2]];
    assert Markers(segments[2..]) == [key];
  }

  lemma ResourcePathFilled(resource: string, key: string, params: map<string, Value>)
    requires ':' !in resource
    requires Defined(params, key)
    ensures MarkersDefined(["", resource, [':'] + key], params)
    ensures Text.Join(Fill(["", resource, [':'] + key], params), "/") == "/" + resource + "/" + Encoded(params[key])
  {
    ResourcePathShape(resource, key, params);
    var v := Encoded(params[key]);
    ResourcePathSegmentsFilled(resource, key, params);
    ThreeJoined(resource, v);
  }

  lemma ResourcePathSegmentsFilled(resource: string, key: string, params: map<string, Value>)
    requires ':' !in resource
    requires Defined(params, key)
    ensures MarkersDefined(["", resource, [':'] + key], params)
    ensures Fill(["", resource, [':'] + key], params) == ["", resource, Encoded(params[key])]
  {
    ResourcePathShape(resource, key, params);
    var segments := ["", resource, [':'] + key];
    var v := Encoded(params[key]);
    assert segments[2][1..] == key;
    assert FillSegment(segments[2], params) == v;
    assert segments[2..] == [segments[2]] && Fill(segments[2..], params) == [v];
    assert segments[1..] == [resource, segments[2]] && Fill(segments[1..], params) == [resource, v];
  }

  lemma ThreeJoined(resource: string, v: string)
    ensures Text.Join(["", resource, v], "/") == "/" + resource + "/" + v
  {
    Text.JoinFront(["", resource, v], "/");
    Text.JoinFront([resource, v], "/");
    assert ["", resource, v][1..] == [resource, v] && [resource, v][1..] == [v];
  }

  lemma FortyTwoText()
    ensures Encoded(Num(42)) == "42"
  {
    assert NumberText.Decimal(4) == "4";
    assert NumberText.Decimal(42) == NumberText.Decimal(4) + "2";
    UriEncoding.EncodeIdentity("42");
  }

  /** `/users/:id` with `{id: 42}` gives `/users/42`. */
  lemma NumericIdentifier()
    ensures Templated("/users/:id", map["id" := Num(42)]) == Ok("/users/42")
  {
    var params := map["id" := Num(42)];
    var url := "/users/:id";
    assert url == "/" + "users" + "/:" + "id";
    assert "/" + "users" + "/" + "42" == "/users/42";
    FortyTwoText();
    assert params["id"] == Num(42);
    ResourcePath("users", "id", params);
  }

  lemma EscapedSpaceText()
    ensures Encoded(Str("a b")) == "a%20b"
  {
    assert UriEncoding.EncodeChar(' ') == "%20";
    assert UriEncoding.EncodeURIComponent("b") == "b";
    assert UriEncoding.EncodeURIComponent(" b") == "%20b";
    assert UriEncoding.EncodeURIComponent("a b") == "a%20b";
  }

  /** `/search/:q` with `{q: "a b"}` gives `/search/a%20b`: the space is escaped, not copied. */
  lemma EscapedSpace()
    ensures Templated("/search/:q", map["q" := Str("a b")]) == Ok("/search/a%20b")
  {
    var params := map["q" := Str("a b")];
    var url := "/search/:q";
    assert url == "/" + "search" + "/:" + "q";
    assert "/" + "search" + "/" + "a%20b" == "/search/a%20b";
    EscapedSpaceText();
    assert params["q"] == Str("a b");
    ResourcePath("search", "q", params);
  }

  /** The three outcomes of templating, in the order they are decided. */
  lemma TemplatedCases(url: string, params: map<string, Value>)
    ensures ExtractParams(url) == [] ==> Templated(url, params) == Err(NoParameters)
    ensures ExtractParams(url) != [] && Missing(ExtractParams(url), params) != [] ==>
              Templated(url, params) == Err(MissingParameters(Missing(ExtractParams(url), params)))
    ensures ExtractParams(url) != [] && Missing(ExtractParams(url), params) == [] ==>
              Templated(url, params) == Substituted(url, params, ExtractParams(url))
  {
  }

  lemma InlineMarkerSegments()
    ensures Text.Split("/a:id/:id", '/') == ["", "a:id", ":id"]
  {
    var segments := ["", "a:id", ":id"];
    assert "/a:id/:id" == "" + "/" + ("a:id" + "/" + ":id");
    Text.JoinFront(segments, "/");
    Text.JoinFront(segments[1..], "/");
    assert segments[1..][1..] == [":id"];
    Text.SplitJoin(segments, '/');
  }

  lemma InlineMarkerKeys()
    ensures ExtractParams("/a:id/:id") == ["id"]
  {
    InlineMarkerSegments();
    var segments := ["", "a:id", ":id"];
    assert !IsMarker(segments[0]) && !IsMarker(segments[1]) && IsMarker(segments[2]);
    assert segments[2..] == [":id"] && Markers(segments[2..]) == ["id"];
    assert segments[1..][1..] == segments[2..];
    assert Markers(segments[1..]) == ["id"];
  }

  lemma InlineMarkerReplaced()
    ensures Text.ReplaceFirst("/a:id/:id", ":id", "7") == "/a7/:id"
  {
    var url := "/a:id/:id";
    assert url[2..5] == ":id";
    assert Text.Occurs(url, ":id", 2);
    assert !Text.Occurs(url, ":id", 0) && !Text.Occurs(url, ":id", 1) by {
      assert url[0] != ':' && url[1] != ':';
    }
    Text.FirstIndexIs(url, ":id", 2);
    assert url[..2] == "/a" && url[5..] == "/:id";
  }

  lemma InlineMarkerSubstituted()
    ensures Substituted("/a:id/:id", map["id" := Str("7")], ["id"]) == Ok("/a7/:id")
  {
    var params := map["id" := Str("7")];
    InlineMarkerReplaced();
    assert Encoded(params["id"]) == "7" by {
      UriEncoding.EncodeIdentity("7");
    }
    assert MarkerOf("id") == ":id";
    assert ["id"][1..] == [];
  }

  /**
   * `/a:id/:id` with `{id: "7"}` gives `/a7/:id`: the one key is found in the
   * last segment, but the replacement hits the first `:id` in the whole
   * string, inside the fixed segment `a:id`, and the marker itself survives.
   */
  lemma InlineMarkerCapturesReplacement()
    ensures Templated("/a:id/:id", map["id" := Str("7")]) == Ok("/a7/:id")
  {
    var url := "/a:id/:id";
    var params := map["id" := Str("7")];
    InlineMarkerKeys();
    InlineMarkerSubstituted();
    assert Missing(["id"], params) == [];
    TemplatedCases(url, params);
  }

  lemma RepeatedSegments()
    ensures Text.Split("/:a/:b/:a", '/') == ["", ":a", ":b", ":a"]
  {
    var segments := ["", ":a", ":b", ":a"];
    assert "/:a/:b/:a" == "" + "/" + (":a" + "/" + (":b" + "/" + ":a"));
    Text.JoinFront(segments, "/");
    Text.JoinFront(segments[1..], "/");
    Text.JoinFront(segments[2..], "/");
    assert segments[1..][1..] == segments[2..] && segments[2..][1..] == [":a"];
    Text.SplitJoin(segments, '/');
  }

  lemma MarkerTail(key: string, rest: seq<string>)
    ensures Markers([[':'] + key] + rest) == [key] + Markers(rest)
  {
    var segments := [[':'] + key] + rest;
    assert segments[0][1..] == key;
    assert segments[1..] == rest;
  }

  lemma PlainTail(segment: string, rest: seq<string>)
    requires !IsMarker(segment)
    ensures Markers([segment] + rest) == Markers(rest)
  {
    assert ([segment] + rest)[1..] == rest;
  }

  lemma LastMarker()
    ensures Markers([":a"]) == ["a"]
  {
    assert [':'] + "a" == ":a";
    MarkerTail("a", []);
    assert [":a"] + [] == [":a"];
  }

  lemma LastTwoMarkers()
    ensures Markers([":b", ":a"]) == ["b", "a"]
  {
    LastMarker();
    assert [':'] + "b" == ":b";
    MarkerTail("b", [":a"]);
    assert [":b"] + [":a"] == [":b", ":a"];
  }

  lemma AllThreeMarkers()
    ensures Markers([":a", ":b", ":a"]) == ["a", "b", "a"]
  {
    LastTwoMarkers();
    assert [':'] + "a" == ":a";
    MarkerTail("a", [":b", ":a"]);
    assert [":a"] + [":b", ":a"] == [":a", ":b", ":a"];
  }

  lemma RepeatedMarkers()
    ensures Markers(["", ":a", ":b", ":a"]) == ["a", "b", "a"]
  {
    AllThreeMarkers();
    PlainTail("", [":a", ":b", ":a"]);
    assert [""] + [":a", ":b", ":a"] == ["", ":a", ":b", ":a"];
  }

  lemma RepeatedKeys()
    ensures ExtractParams("/:a/:b/:a") == ["a", "b", "a"]
  {
    RepeatedSegments();
    RepeatedMarkers();
    assert ExtractParams("/:a/:b/:a") == Markers(Text.Split("/:a/:b/:a", '/'));
  }

  lemma {:induction false} NoneGiven(keys: seq<string>)
    ensures Missing(keys, map[]) == keys
  {
    if keys != [] {
      NoneGiven(keys[1..]);
    }
  }

  /** `/:a/:b/:a` with no values reports every absent name in order, the repeat included. */
  lemma RepeatedMissing()
    ensures Templated("/:a/:b/:a", map[]) == Err(MissingParameters(["a", "b", "a"]))
  {
    RepeatedKeys();
    NoneGiven(["a", "b", "a"]);
    TemplatedCases("/:a/:b/:a", map[]);
  }

  /** A URL with no marker segment is rejected whatever the values. */
  lemma NoMarkers(params: map<string, Value>)
    ensures Templated("/users", params) == Err(NoParameters)
  {
    var segments := ["", "users"];
    assert "/users" == "" + "/" + "users";
    Text.JoinFront(segments, "/");
    assert segments[1..] == ["users"];
    Text.SplitJoin(segments, '/');
    assert Markers(segments[1..]) == [];
  }

  lemma BareMarkerKeys()
    ensures ExtractParams(":id") == ["id"]
  {
    Text.SplitWithoutSeparator(":id", '/');
    assert [':'] + "id" == ":id";
    MarkerTail("id", []);
    assert [":id"] + [] == [":id"];
  }

  lemma BareMarkerSubstituted()
    ensures Substituted(":id", map["id" := Str("")], ["id"]) == Ok("")
  {
    var params := map["id" := Str("")];
    assert Encoded(params["id"]) == "";
    assert MarkerOf("id") == ":id";
    Text.ReplaceFirstAtStart(":id", "", "");
    assert ":id" + "" == ":id";
    assert ["id"][1..] == [];
  }

  /** A pattern without `/` can fill to the empty string: `:id` with `{id: ""}` gives `""`. */
  lemma BareMarkerEmptyValue()
    ensures Templated(":id", map["id" := Str("")]) == Ok("")
  {
    BareMarkerKeys();
    BareMarkerSubstituted();
    assert Missing(["id"], map["id" := Str("")]) == [];
    TemplatedCases(":id", map["id" := Str("")]);
  }
}
