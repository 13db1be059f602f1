/**
 * URL templating (index.ts, `extractParams`, `replaceParams`, `urlTemplate`).
 *
 * A pattern such as `/users/:id` is split on `/`; every piece that starts with
 * `:` is a marker and names a parameter. Filling a template checks that there
 * are markers and that the map has every named key, then, key by key in
 * marker order, replaces the first remaining occurrence of `:key` in the text
 * with the percent-encoded value.
 */
module Template {
  import opened Wrappers
  import Text
  import UriEncoding
  import NumberText

  /**
   * A parameter value as the map holds it at run time: the declared string or
   * number, or `undefined` (a key present with no value, or a value the
   * declared type did not prevent). A number is an integer of magnitude at
   * most 2^53, the range in which its text is its own decimal digits.
   */
  datatype Value = Str(s: string) | Num(n: NumberText.Integral) | Undefined

  /** The templating failures, each one an `Error` thrown by the source. */
  datatype TemplateError =
    | NoParameters
    | MissingParameters(keys: seq<string>)
    | UndefinedParameter(key: string)

  /** The message of the thrown `Error`. */
  function Message(e: TemplateError): string
  {
    match e
    case NoParameters => "No query parameters found."
    case MissingParameters(keys) => "Missing parameters: " + Text.Join(keys, ", ")
    case UndefinedParameter(key) => "Parameter for key " + key + " is undefined."
  }

  /** A path segment that names a parameter. */
  predicate IsMarker(segment: string)
  {
    |segment| > 0 && segment[0] == ':'
  }

  /** The names of the marker segments among `segments`, in order, repeats kept. */
  function Markers(segments: seq<string>): (keys: seq<string>)
    ensures |keys| <= |segments|
    ensures forall k :: k in keys <==> [':'] + k in segments
  {
    if segments == [] then []
    else
      var rest := Markers(segments[1..]);
      assert forall k :: [':'] + k in segments <==> [':'] + k == segments[0] || [':'] + k in segments[1..];
      if IsMarker(segments[0]) then
        assert [':'] + segments[0][1..] == segments[0];
        [segments[0][1..]] + rest
      else rest
  }

  lemma {:induction false} MarkersAppend(a: seq<string>, b: seq<string>)
    ensures Markers(a + b) == Markers(a) + Markers(b)
  {
    if a != [] {
      assert (a + b)[0] == a[0];
      assert (a + b)[1..] == a[1..] + b;
      MarkersAppend(a[1..], b);
      var head := if IsMarker(a[0]) then [a[0][1..]] else [];
      assert Markers(a + b) == head + (Markers(a[1..]) + Markers(b));
      assert Markers(a) == head + Markers(a[1..]);
      assert head + (Markers(a[1..]) + Markers(b)) == (head + Markers(a[1..])) + Markers(b);
    } else {
      assert a + b == b;
    }
  }

  /**
   * `extractParams(url)`: the names of the `/`-separated segments of `url`
   * that start with `:`, without the `:`, left to right, repeats kept. There
   * are no more of them than segments, none contains `/`, and a name is
   * extracted exactly when `:name` is a whole segment.
   */
  function ExtractParams(url: string): (keys: seq<string>)
    ensures |keys| <= Text.Count(url, '/') + 1
    ensures forall i :: 0 <= i < |keys| ==> '/' !in keys[i]
    ensures forall k :: k in keys <==> [':'] + k in Text.Split(url, '/')
  {
    var segments := Text.Split(url, '/');
    var keys := Markers(segments);
    forall i | 0 <= i < |keys| ensures '/' !in keys[i] {
      assert keys[i] in keys;
      var j :| 0 <= j < |segments| && segments[j] == [':'] + keys[i];
      assert keys[i] == segments[j][1..];
    }
    keys
  }

  /** The names of a URL are those of its `/`-separated parts, one after the other. */
  lemma ExtractParamsAppend(a: string, b: string)
    ensures ExtractParams(a + "/" + b) == ExtractParams(a) + ExtractParams(b)
  {
    Text.SplitAppend(a, b, '/');
    MarkersAppend(Text.Split(a, '/'), Text.Split(b, '/'));
  }

  /** A single segment gives its own name when it is a marker, and nothing otherwise. */
  lemma ExtractParamsSegment(segment: string)
    requires '/' !in segment
    ensures ExtractParams(segment) == if IsMarker(segment) then [segment[1..]] else []
  {
    Text.SplitWithoutSeparator(segment, '/');
  }

  /** A key the map holds with a value other than `undefined`. */
  predicate Defined(params: map<string, Value>, key: string)
  {
    key in params && !params[key].Undefined?
  }

  /** `keys.filter((k) => !paramKeys.includes(k))`: the keys absent from the map, in order, repeats kept. */
  function Missing(keys: seq<string>, params: map<string, Value>): (r: seq<string>)
    ensures |r| <= |keys|
  {
    if keys == [] then []
    else (if keys[0] in params then [] else [keys[0]]) + Missing(keys[1..], params)
  }

  /** A name is missing exactly when it is among the keys and absent from the map. */
  lemma {:induction false} MissingSpec(keys: seq<string>, params: map<string, Value>)
    ensures forall k :: k in Missing(keys, params) <==> k in keys && k !in params
  {
    if keys != [] {
      MissingSpec(keys[1..], params);
      assert forall k :: k in keys <==> k == keys[0] || k in keys[1..];
    }
  }

  lemma MissingCons(key: string, rest: seq<string>, params: map<string, Value>)
    ensures Missing([key] + rest, params) == (if key in params then [] else [key]) + Missing(rest, params)
  {
    assert ([key] + rest)[1..] == rest;
  }

  lemma {:induction false} MissingAppend(a: seq<string>, b: seq<string>, params: map<string, Value>)
    ensures Missing(a + b, params) == Missing(a, params) + Missing(b, params)
  {
    if a == [] {
      assert a + b == b;
    } else {
      var x, tail := a[0], a[1..];
      assert a == [x] + tail && a + b == [x] + (tail + b);
      MissingAppend(tail, b, params);
      MissingCons(x, tail + b, params);
      MissingCons(x, tail, params);
      var head := if x in params then [] else [x];
      var rest, other := Missing(tail, params), Missing(b, params);
      assert head + (rest + other) == (head + rest) + other;
    }
  }

  /** The string form of a defined value, the argument `encodeURIComponent` converts it to. */
  function ValueText(v: Value): string
    requires !v.Undefined?
  {
    match v
    case Str(s) => s
    case Num(n) => NumberText.IntegerText(n)
  }

  /** `encodeURIComponent(params[key])` for a defined value. */
  function Encoded(v: Value): (r: string)
    requires !v.Undefined?
    ensures ':' !in r && '$' !in r && '/' !in r
  {
    UriEncoding.EncodeURIComponent(ValueText(v))
  }

  /** The text `url.replace(pattern, ...)` looks for: the marker of `key`. */
  function MarkerOf(key: string): (pattern: string)
    ensures |pattern| > 0 && pattern[0] == ':'
  {
    [':'] + key
  }

  /**
   * What `replaceParams(url, params, keys)` computes: the keys taken in
   * order, each replacing the first remaining occurrence of its marker with
   * its encoded value, stopping at the first key whose value is `undefined`.
   * It fails exactly when some key is not defined, and then names the first
   * such key.
   */
  function Substituted(url: string, params: map<string, Value>, keys: seq<string>): (r: Result<string, TemplateError>)
    ensures r.Ok? <==> forall i :: 0 <= i < |keys| ==> Defined(params, keys[i])
    ensures r.Err? ==> r.error.UndefinedParameter?
    decreases |keys|
  {
    if keys == [] then Ok(url)
    else if !Defined(params, keys[0]) then Err(UndefinedParameter(keys[0]))
    else
      var r := Substituted(Text.ReplaceFirst(url, MarkerOf(keys[0]), Encoded(params[keys[0]])), params, keys[1..]);
      assert forall i :: 1 <= i < |keys| ==> keys[i] == keys[1..][i - 1];
      r
  }

  /** Substitution fails at the first key whose value is missing or `undefined`, and names that key. */
  lemma {:induction false} SubstitutedFailsAt(url: string, params: map<string, Value>, keys: seq<string>, i: nat)
    requires i < |keys| && !Defined(params, keys[i])
    requires forall j :: 0 <= j < i ==> Defined(params, keys[j])
    ensures Substituted(url, params, keys) == Err(UndefinedParameter(keys[i]))
    decreases i
  {
    if i > 0 {
      var next := Text.ReplaceFirst(url, MarkerOf(keys[0]), Encoded(params[keys[0]]));
      assert keys[1..][i - 1] == keys[i];
      assert forall j :: 0 <= j < i - 1 ==> keys[1..][j] == keys[j + 1];
      SubstitutedFailsAt(next, params, keys[1..], i - 1);
    }
  }

  /**
   * `replaceParams`: the loop of the source over the keys, reassigning the
   * working URL once per key and throwing at an `undefined` value.
   */
  method ReplaceParams(url: string, params: map<string, Value>, keys: seq<string>) returns (r: Result<string, TemplateError>)
    ensures r == Substituted(url, params, keys)
  {
    var current := url;
    var i := 0;
    while i < |keys|
      invariant 0 <= i <= |keys|
      invariant Substituted(url, params, keys) == Substituted(current, params, keys[i..])
    {
      var key := keys[i];
      assert keys[i..][1..] == keys[i + 1..];
      if key !in params || params[key].Undefined? {
        return Err(UndefinedParameter(key));
      }
      current := Text.ReplaceFirst(current, MarkerOf(key), Encoded(params[key]));
      i := i + 1;
    }
    return Ok(current);
  }

  /**
   * What `urlTemplate(url, params)` computes: no markers is an error; then any
   * marker name absent from the map is an error that lists all of them; only
   * then does substitution run.
   */
  function Templated(url: string, params: map<string, Value>): (r: Result<string, TemplateError>)
    ensures r == Err(NoParameters) <==> ExtractParams(url) == []
    ensures (r.Err? && r.error.MissingParameters?) <==>
              ExtractParams(url) != [] && exists k :: k in ExtractParams(url) && k !in params
    ensures r.Err? && r.error.MissingParameters? ==>
              r.error.keys != [] && forall k :: k in r.error.keys <==> k in ExtractParams(url) && k !in params
    ensures r.Ok? <==> ExtractParams(url) != [] && forall k :: k in ExtractParams(url) ==> Defined(params, k)
  {
    var keys := ExtractParams(url);
    if keys == [] then Err(NoParameters)
    else
      var missing := Missing(keys, params);
      MissingSpec(keys, params);
      if missing != [] then
        assert missing[0] in missing;
        Err(MissingParameters(missing))
      else
        assert (forall i :: 0 <= i < |keys| ==> Defined(params, keys[i])) <==> (forall k :: k in keys ==> Defined(params, k));
        Substituted(url, params, keys)
  }

  /** `urlTemplate`: the checks of the source, then the substitution loop. */
  method UrlTemplate(url: string, params: map<string, Value>) returns (r: Result<string, TemplateError>)
    ensures r == Templated(url, params)
  {
    var keys := ExtractParams(url);
    if |keys| == 0 {
      return Err(NoParameters);
    }
    var missing := Missing(keys, params);
    if |missing| > 0 {
      return Err(MissingParameters(missing));
    }
    r := ReplaceParams(url, params, keys);
  }

  /** Every marker among `segments` names a defined key. */
  predicate MarkersDefined(segments: seq<string>, params: map<string, Value>)
  {
    forall i :: 0 <= i < |segments| && IsMarker(segments[i]) ==> Defined(params, segments[i][1..])
  }

  /** No segment other than a marker contains `:`. */
  predicate OnlyMarkersHaveColons(segments: seq<string>)
  {
    forall i :: 0 <= i < |segments| && !IsMarker(segments[i]) ==> ':' !in segments[i]
  }

  /** A marker segment replaced by its encoded value; any other segment kept. */
  function FillSegment(segment: string, params: map<string, Value>): string
    requires IsMarker(segment) ==> Defined(params, segment[1..])
  {
    if IsMarker(segment) then Encoded(params[segment[1..]]) else segment
  }

  /** The segments with every marker replaced by its encoded value: what a template is meant to produce. */
  function Fill(segments: seq<string>, params: map<string, Value>): (r: seq<string>)
    requires MarkersDefined(segments, params)
    ensures |r| == |segments|
  {
    if segments == [] then []
    else [FillSegment(segments[0], params)] + Fill(segments[1..], params)
  }

  /** A result of `Substituted` with `p` put in front of a successful one. */
  function Prefixed(p: string, r: Result<string, TemplateError>): Result<string, TemplateError>
  {
    match r
    case Ok(u) => Ok(p + u)
    case Err(e) => Err(e)
  }

  /** Text without `:` in front of the URL is never touched by the substitution. */
  lemma {:induction false} SubstitutedSkipsPrefix(p: string, q: string, params: map<string, Value>, keys: seq<string>)
    requires ':' !in p
    ensures Substituted(p + q, params, keys) == Prefixed(p, Substituted(q, params, keys))
    decreases |keys|
  {
    if keys != [] && Defined(params, keys[0]) {
      var pattern, v := MarkerOf(keys[0]), Encoded(params[keys[0]]);
      Text.ReplaceFirstSkipsPrefix(p, q, pattern, v);
      SubstitutedSkipsPrefix(p, Text.ReplaceFirst(q, pattern, v), params, keys[1..]);
    }
  }

  /** A leading marker is replaced by its value, and the rest is substituted as before. */
  lemma SubstitutedMarkerFirst(key: string, tail: string, filledTail: string, params: map<string, Value>, keys: seq<string>)
    requires Defined(params, key)
    requires Substituted(tail, params, keys) == Ok(filledTail)
    ensures Substituted(MarkerOf(key) + tail, params, [key] + keys) == Ok(Encoded(params[key]) + filledTail)
  {
    var v := Encoded(params[key]);
    assert ([key] + keys)[0] == key && ([key] + keys)[1..] == keys;
    Text.ReplaceFirstAtStart(MarkerOf(key), tail, v);
    SubstitutedSkipsPrefix(v, tail, params, keys);
  }

  /** A leading segment without `:` is kept, and the rest is substituted as before. */
  lemma SubstitutedPlainFirst(s: string, tail: string, filledTail: string, params: map<string, Value>, keys: seq<string>)
    requires ':' !in s
    requires Substituted(tail, params, keys) == Ok(filledTail)
    ensures Substituted(s + tail, params, keys) == Ok(s + filledTail)
  {
    SubstitutedSkipsPrefix(s, tail, params, keys);
  }

  /** The text after the first segment, and what filling makes of it. */
  lemma JoinFirst(segments: seq<string>, params: map<string, Value>)
    requires |segments| >= 2
    requires MarkersDefined(segments, params)
    ensures Text.Join(segments, "/") == segments[0] + ("/" + Text.Join(segments[1..], "/"))
    ensures Text.Join(Fill(segments, params), "/") ==
              FillSegment(segments[0], params) + ("/" + Text.Join(Fill(segments[1..], params), "/"))
  {
    Text.JoinFront(segments, "/");
    var f := Fill(segments, params);
    Text.JoinFront(f, "/");
    assert f[1..] == Fill(segments[1..], params);
  }

  /**
   * When no segment other than a marker contains `:`, substitution replaces
   * each marker segment by its own encoded value, repeated markers included,
   * and changes nothing else.
   */
  lemma {:induction false} SubstitutedFillsMarkers(segments: seq<string>, params: map<string, Value>)
    requires |segments| >= 1
    requires MarkersDefined(segments, params)
    requires OnlyMarkersHaveColons(segments)
    ensures Substituted(Text.Join(segments, "/"), params, Markers(segments)) == Ok(Text.Join(Fill(segments, params), "/"))
    decreases |segments|
  {
    if |segments| > 1 {
      ShapeOfRest(segments, params);
      SubstitutedFillsMarkers(segments[1..], params);
    }
    FillsFirstSegment(segments, params);
  }

  /** The conditions on a run of segments hold for the run without its first segment. */
  lemma ShapeOfRest(segments: seq<string>, params: map<string, Value>)
    requires |segments| >= 1
    requires MarkersDefined(segments, params)
    requires OnlyMarkersHaveColons(segments)
    ensures MarkersDefined(segments[1..], params)
    ensures OnlyMarkersHaveColons(segments[1..])
  {
    forall i | 0 <= i < |segments[1..]|
      ensures segments[1..][i] == segments[i + 1]
    {
    }
  }

  /** The inductive step: the first segment is filled, given that the rest is. */
  lemma FillsFirstSegment(segments: seq<string>, params: map<string, Value>)
    requires |segments| >= 1
    requires MarkersDefined(segments, params)
    requires OnlyMarkersHaveColons(segments)
    requires |segments| > 1 ==> (MarkersDefined(segments[1..], params) &&
               Substituted(Text.Join(segments[1..], "/"), params, Markers(segments[1..])) ==
               Ok(Text.Join(Fill(segments[1..], params), "/")))
    ensures Substituted(Text.Join(segments, "/"), params, Markers(segments)) == Ok(Text.Join(Fill(segments, params), "/"))
  {
    var s, rest := segments[0], segments[1..];
    var tail, filledTail := "", "";
    if rest != [] {
      SubstitutedSkipsPrefix("/", Text.Join(rest, "/"), params, Markers(rest));
      tail, filledTail := "/" + Text.Join(rest, "/"), "/" + Text.Join(Fill(rest, params), "/");
      JoinFirst(segments, params);
    } else {
      assert segments == [s];
    }
    assert Substituted(tail, params, Markers(rest)) == Ok(filledTail);
    assert Text.Join(segments, "/") == s + tail;
    if IsMarker(s) {
      var key := s[1..];
      assert s == MarkerOf(key);
      assert Markers(segments) == [key] + Markers(rest);
      SubstitutedMarkerFirst(key, tail, filledTail, params, Markers(rest));
    } else {
      assert ':' !in s;
      assert Markers(segments) == Markers(rest);
      SubstitutedPlainFirst(s, tail, filledTail, params, Markers(rest));
    }
    assert Text.Join(Fill(segments, params), "/") == FillSegment(s, params) + filledTail;
  }

  /**
   * `urlTemplate` does what it is for whenever the pattern has a marker, every
   * name is defined in the map and no other segment contains `:`: each
   * marker segment becomes its encoded value, every other segment is kept.
   */
  lemma TemplatedFillsMarkers(url: string, params: map<string, Value>)
    requires ExtractParams(url) != []
    requires MarkersDefined(Text.Split(url, '/'), params)
    requires OnlyMarkersHaveColons(Text.Split(url, '/'))
    ensures Templated(url, params) == Ok(Text.Join(Fill(Text.Split(url, '/'), params), "/"))
  {
    var segments := Text.Split(url, '/');
    Text.JoinSplit(url, '/');
    SubstitutedFillsMarkers(segments, params);
  }

  /**
   * Substitution never adds or removes a `/`: markers hold none (they come
   * from split pieces) and encoded values hold none.
   */
  lemma {:induction false} SubstitutedKeepsSlashes(url: string, params: map<string, Value>, keys: seq<string>)
    requires forall i :: 0 <= i < |keys| ==> '/' !in keys[i]
    ensures Substituted(url, params, keys).Ok? ==> Text.Count(Substituted(url, params, keys).value, '/') == Text.Count(url, '/')
    decreases |keys|
  {
    if keys != [] && Defined(params, keys[0]) {
      var pattern, v := MarkerOf(keys[0]), Encoded(params[keys[0]]);
      assert '/' !in pattern;
      Text.ReplaceFirstKeepsCount(url, pattern, v, '/');
      assert forall i :: 0 <= i < |keys[1..]| ==> keys[1..][i] == keys[i + 1];
      SubstitutedKeepsSlashes(Text.ReplaceFirst(url, pattern, v), params, keys[1..]);
    }
  }

  /**
   * A filled template has exactly as many path segments as the pattern, so
   * a pattern with a `/` never fills to the empty string.
   */
  lemma TemplatedKeepsSegments(url: string, params: map<string, Value>)
    ensures Templated(url, params).Ok? ==>
              |Text.Split(Templated(url, params).value, '/')| == |Text.Split(url, '/')| &&
              ('/' in url ==> Templated(url, params).value != "")
  {
    if Templated(url, params).Ok? {
      SubstitutedKeepsSlashes(url, params, ExtractParams(url));
    }
  }

  /** A present key whose value is `undefined` passes the missing-key check and fails in the substitution. */
  lemma UndefinedValueFailsLate(url: string, params: map<string, Value>, i: nat)
    requires i < |ExtractParams(url)|
    requires forall k :: k in ExtractParams(url) ==> k in params
    requires !Defined(params, ExtractParams(url)[i])
    requires forall j :: 0 <= j < i ==> Defined(params, ExtractParams(url)[j])
    ensures Templated(url, params) == Err(UndefinedParameter(ExtractParams(url)[i]))
  {
    var keys := ExtractParams(url);
    MissingSpec(keys, params);
    assert Missing(keys, params) == [] by {
      if Missing(keys, params) != [] {
        assert Missing(keys, params)[0] in Missing(keys, params);
      }
    }
    SubstitutedFailsAt(url, params, keys, i);
  }
}
