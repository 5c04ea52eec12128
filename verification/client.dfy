/**
 * The base HTTP client: how a request's URL and headers are built, how the
 * transport's reply is decoded, and the response envelope with its timing
 * metadata.  The network call, the clock and the JSON parser are outside
 * the model: their results arrive as parameters.
 */
module ApiPattern {
  import opened Wrappers
  import opened RubyValues
  import opened Strings
  import opened ClassHelpers

  const JsonContentType := "application/json"

  /** The transport's reply: the raw body (possibly nil) and its headers, which the model never looks into. */
  datatype Response = Response(body: Option<string>, headers: Value)

  /** The arguments of the transport call `HTTParty.send(verb, url, body:, headers:, port:, format:)`. */
  datatype Request = Request(verb: Key, url: string, body: Value, headers: Value, port: int, format: Key)

  /** One query parameter; its value is already in string form. */
  datatype Param = Param(key: Key, value: string)

  /** `"#{key}=#{value}"`, one segment of the query string. */
  function Segment(p: Param): string {
    ToS(p.key) + "=" + p.value
  }

  function Segments(params: seq<Param>): (segments: seq<string>)
    ensures |segments| == |params|
    ensures forall i | 0 <= i < |params| :: segments[i] == Segment(params[i])
  {
    if params == [] then [] else [Segment(params[0])] + Segments(params[1..])
  }

  class Client {
    const token: string
    const basePath: string
    const port: int

    /** `initialize(token:, base_path:, port:)`: the three settings, fixed for the client's lifetime. */
    constructor (token: string, basePath: string, port: int)
      ensures this.token == token && this.basePath == basePath && this.port == port
    {
      this.token := token;
      this.basePath := basePath;
      this.port := port;
    }

    /** `self.compatible_api_version`: left for concrete clients; the base raises. */
    static function CompatibleApiVersion(): (r: Result<string, RubyError>)
      ensures r == Failure(NotImplementedError)
    {
      Failure(NotImplementedError)
    }

    /** `self.api_version`: left for concrete clients; the base raises. */
    static function ApiVersion(): (r: Result<string, RubyError>)
      ensures r == Failure(NotImplementedError)
    {
      Failure(NotImplementedError)
    }

    /** `process_params`: one `key=value` segment per parameter, in order, joined by `&`, nothing escaped. */
    static function ProcessParams(params: seq<Param>): (query: string)
      ensures params == [] <==> query == ""
    {
      Join(Segments(params), '&')
    }

    /** `construct_base_path`: `base_path/path`, then `?query` when there are parameters. */
    function ConstructBasePath(path: string, params: seq<Param>): (url: string)
      ensures basePath + "/" + path <= url
      ensures params == [] <==> url == basePath + "/" + path
      ensures params != [] ==>
        && url[|basePath| + 1 + |path|] == '?'
        && url[|basePath| + 2 + |path|..] == ProcessParams(params)
    {
      var constructedPath := basePath + "/" + path;
      if params == [] then constructedPath else constructedPath + "?" + ProcessParams(params)
    }

    /** The headers of `unauthorised_and_send`: the JSON content type and nothing else. */
    static function UnauthorisedHeaders(): (h: Value)
      ensures h.Hash? && DistinctKeys(h.entries)
      ensures AsMap(h.entries) == map[Sym("Content-Type") := Text(JsonContentType)]
    {
      Hash([Entry(Sym("Content-Type"), Text(JsonContentType))])
    }

    /** The headers of `authorise_and_send`: the unauthorised ones plus `Token`. */
    function AuthorisedHeaders(): (h: Value)
      ensures h.Hash? && DistinctKeys(h.entries)
      ensures h.entries == UnauthorisedHeaders().entries + [Entry(Sym("Token"), Text(token))]
      ensures AsMap(h.entries) == map[Sym("Content-Type") := Text(JsonContentType), Sym("Token") := Text(token)]
    {
      var entries := [Entry(Sym("Content-Type"), Text(JsonContentType)), Entry(Sym("Token"), Text(token))];
      assert entries[1..][1..] == [];
      Hash(entries)
    }

    /** `body_is_missing?`: the body is nil or empty. */
    static function BodyIsMissing(response: Response): (r: bool)
      ensures r <==> response.body == None || response.body == Some("")
    {
      response.body.None? || response.body.value == ""
    }

    /** `body_is_present?`: the negation of `body_is_missing?`. */
    static function BodyIsPresent(response: Response): (r: bool)
      ensures r <==> response.body.Some? && |response.body.value| > 0
    {
      !BodyIsMissing(response)
    }

    /**
     * `parse_body`.  `parsed` is what `JSON.parse` made of the body, None
     * when it raised `JSON::ParserError`.  A nil body makes `JSON.parse`
     * raise TypeError; `dig` raises TypeError on an Array and NoMethodError on
     * any value other than a Hash; neither is rescued.
     */
    static function ParseBody(response: Response, parsed: Option<Value>, path: string): (r: Result<Value, RubyError>)
      ensures response.body == None ==> r == Failure(TypeError)
      ensures response.body.Some? && parsed == None ==> r == Success(Text(response.body.value))
      ensures response.body.Some? && parsed.Some? ==> (r.Success? <==> parsed.value.Hash?)
      ensures response.body.Some? && parsed.Some? && parsed.value.Arr? ==> r == Failure(TypeError)
      ensures response.body.Some? && parsed.Some? && !parsed.value.Hash? && !parsed.value.Arr? ==> r == Failure(NoMethodError)
      ensures r.Success? && parsed.Some? ==>
        || (Lookup(parsed.value.entries, Str(path)) == Some(r.value) && Truthy(r.value))
        || (r.value == parsed.value && forall x :: Lookup(parsed.value.entries, Str(path)) == Some(x) ==> !Truthy(x))
    {
      match response.body
      case None => Failure(TypeError)
      case Some(raw) =>
        match parsed
        case None => Success(Text(raw))
        case Some(Hash(h)) =>
          (var dug := Lookup(h, Str(path));
           if dug.Some? && Truthy(dug.value) then Success(dug.value) else Success(Hash(h)))
        case Some(Arr(_)) => Failure(TypeError)
        case Some(_) => Failure(NoMethodError)
    }

    /** `construct_metadata`: both timestamps as given and the time between them. */
    static function ConstructMetadata(startTime: int, endTime: int): (m: Value)
      ensures m.Hash? && Keys(m.entries) == [Str("start_time"), Str("end_time"), Str("total_time")]
      ensures Lookup(m.entries, Str("start_time")) == Some(Int(startTime))
      ensures Lookup(m.entries, Str("end_time")) == Some(Int(endTime))
      ensures Lookup(m.entries, Str("total_time")) == Some(Int(endTime - startTime))
    {
      var totalTime := endTime - startTime;
      var entries := [
        Entry(Str("start_time"), Int(startTime)),
        Entry(Str("end_time"), Int(endTime)),
        Entry(Str("total_time"), Int(totalTime))
      ];
      assert entries[1..][1..] == [entries[2]];
      assert "start_time"[0] != "total_time"[0] && "end_time"[0] != "total_time"[0];
      assert Lookup(entries[1..], Str("total_time")) == Lookup(entries[1..][1..], Str("total_time"));
      Hash(entries)
    }

    /** `construct_response_object`: the envelope `{body, headers, metadata}`. */
    static function ConstructResponseObject(response: Response, parsed: Option<Value>, path: string,
                                            startTime: int, endTime: int): (r: Result<Value, RubyError>)
      ensures ParseBody(response, parsed, path).Failure? ==> r == Failure(ParseBody(response, parsed, path).error)
      ensures ParseBody(response, parsed, path).Success? ==>
        && r.Success? && r.value.Hash?
        && Keys(r.value.entries) == [Str("body"), Str("headers"), Str("metadata")]
        && Lookup(r.value.entries, Str("body")) == Some(ParseBody(response, parsed, path).value)
        && Lookup(r.value.entries, Str("headers")) == Some(response.headers)
        && Lookup(r.value.entries, Str("metadata")) == Some(ConstructMetadata(startTime, endTime))
    {
      match ParseBody(response, parsed, path)
      case Failure(e) => Failure(e)
      case Success(body) =>
        var entries := [
          Entry(Str("body"), body),
          Entry(Str("headers"), response.headers),
          Entry(Str("metadata"), ConstructMetadata(startTime, endTime))
        ];
        assert entries[1..][1..] == [entries[2]];
        assert "body"[0] != "metadata"[0] && "headers"[0] != "metadata"[0];
        assert Lookup(entries[1..], Str("metadata")) == Lookup(entries[1..][1..], Str("metadata"));
        Success(Hash(entries))
    }

    /**
     * `unauthorised_and_send`: the transport call it makes, and the envelope
     * it builds from the transport's `reply` and the clock readings taken
     * before and after the call.
     */
    method UnauthorisedAndSend(httpMethod: Key, path: string, payload: Value := Hash([]), params: seq<Param> := [],
                               reply: Response, parsed: Option<Value>, startTime: int, endTime: int)
      returns (request: Request, envelope: Result<Value, RubyError>)
      ensures request == Request(Sym(ToS(httpMethod)), ConstructBasePath(path, params), payload,
                                 UnauthorisedHeaders(), port, Sym("json"))
      ensures envelope == ConstructResponseObject(reply, parsed, path, startTime, endTime)
    {
      request := Request(Sym(ToS(httpMethod)), ConstructBasePath(path, params), payload,
                         UnauthorisedHeaders(), port, Sym("json"));
      envelope := ConstructResponseObject(reply, parsed, path, startTime, endTime);
    }

    /** `authorise_and_send`: as `unauthorised_and_send`, with the `Token` header added. */
    method AuthoriseAndSend(httpMethod: Key, path: string, payload: Value := Hash([]), params: seq<Param> := [],
                            reply: Response, parsed: Option<Value>, startTime: int, endTime: int)
      returns (request: Request, envelope: Result<Value, RubyError>)
      ensures request == Request(Sym(ToS(httpMethod)), ConstructBasePath(path, params), payload,
                                 AuthorisedHeaders(), port, Sym("json"))
      ensures envelope == ConstructResponseObject(reply, parsed, path, startTime, endTime)
    {
      request := Request(Sym(ToS(httpMethod)), ConstructBasePath(path, params), payload,
                         AuthorisedHeaders(), port, Sym("json"));
      envelope := ConstructResponseObject(reply, parsed, path, startTime, endTime);
    }

    /**
     * The URL comes apart at `?` into the path and the query again, provided
     * no part holds a `?` of its own: the builder adds exactly one `?`, and
     * only when there are parameters.
     */
    lemma UrlSplitsAtQuery(path: string, params: seq<Param>)
      requires '?' !in basePath && '?' !in path
      requires forall i | 0 <= i < |params| :: '?' !in ToS(params[i].key) && '?' !in params[i].value
      ensures Split(ConstructBasePath(path, params), '?')
           == [basePath + "/" + path] + (if params == [] then [] else [ProcessParams(params)])
      ensures Count(ConstructBasePath(path, params), '?') == if params == [] then 0 else 1
    {
      var prefix := basePath + "/" + path;
      var url := ConstructBasePath(path, params);
      assert '?' !in prefix;
      var parts := [prefix] + (if params == [] then [] else [ProcessParams(params)]);
      if params != [] {
        SegmentsAvoid(params, '?');
        JoinAvoids(Segments(params), '&', '?');
        assert Join(parts, '?') == url by {
          assert parts[1..] == [ProcessParams(params)];
        }
      }
      SplitJoin(parts, '?');
      SplitCount(url, '?');
    }
  }

  /** A character that no key and no value holds is in no segment (`=` aside). */
  lemma SegmentsAvoid(params: seq<Param>, c: char)
    requires c != '='
    requires forall i | 0 <= i < |params| :: c !in ToS(params[i].key) && c !in params[i].value
    ensures forall i | 0 <= i < |Segments(params)| :: c !in Segments(params)[i]
  {
  }

  /**
   * `process_params` read back: splitting the query at `&` gives one
   * `key=value` segment per parameter, in order, when neither keys nor
   * values hold an `&`; so n parameters are joined by n - 1 separators.
   */
  lemma QueryRoundTrip(params: seq<Param>)
    requires params != []
    requires forall i | 0 <= i < |params| :: '&' !in ToS(params[i].key) && '&' !in params[i].value
    ensures Split(Client.ProcessParams(params), '&') == Segments(params)
    ensures Count(Client.ProcessParams(params), '&') == |params| - 1
  {
    SegmentsAvoid(params, '&');
    SplitJoin(Segments(params), '&');
    SplitCount(Client.ProcessParams(params), '&');
  }

  /**
   * Nothing is escaped: a value holding `&` and `=` produces the same query
   * as two separate parameters, so the query does not determine the
   * parameters it was built from.
   */
  lemma QueryIsNotEscaped(k1: Key, a: string, k2: Key, b: string)
    ensures Client.ProcessParams([Param(k1, a + "&" + ToS(k2) + "=" + b)])
         == Client.ProcessParams([Param(k1, a), Param(k2, b)])
  {
    var one, two := [Param(k1, a + "&" + ToS(k2) + "=" + b)], [Param(k1, a), Param(k2, b)];
    assert Segments(two)[1..] == [Segment(two[1])];
    calc {
      Client.ProcessParams(two);
      Join(Segments(two), '&');
      Segments(two)[0] + ['&'] + Join(Segments(two)[1..], '&');
      Segment(two[0]) + "&" + Segment(two[1]);
      ToS(k1) + "=" + a + "&" + (ToS(k2) + "=" + b);
      { assert ToS(k1) + "=" + a + "&" + (ToS(k2) + "=" + b) == ToS(k1) + "=" + (a + "&" + ToS(k2) + "=" + b); }
      Segment(one[0]);
      Client.ProcessParams(one);
    }
  }

  /**
   * `parse_body` on a parsed object: the whole object comes back exactly
   * when the entry at `path` is missing, nil or false; otherwise that
   * entry, which is never the object itself.
   */
  lemma ParseBodyUnwrapsIff(response: Response, h: seq<Entry>, path: string)
    requires response.body.Some?
    ensures Client.ParseBody(response, Some(Hash(h)), path) == Success(Hash(h))
        <==> !(Lookup(h, Str(path)).Some? && Truthy(Lookup(h, Str(path)).value))
    ensures Lookup(h, Str(path)).Some? && Truthy(Lookup(h, Str(path)).value) ==>
      Client.ParseBody(response, Some(Hash(h)), path) == Success(Lookup(h, Str(path)).value)
  {
    if Lookup(h, Str(path)).Some? {
      LookupDepth(h, Str(path));
      HashDepth(h);
    }
  }

  /** With the clock frozen, both timestamps agree and the total time is 0. */
  lemma FrozenClockMetadata(t: int)
    ensures Client.ConstructMetadata(t, t)
         == Hash([Entry(Str("start_time"), Int(t)), Entry(Str("end_time"), Int(t)), Entry(Str("total_time"), Int(0))])
  {
  }

  /**
   * The body the messages endpoint returns, `{"message":"Success"}`, comes
   * back whole for path `messages`, and after normalisation it equals the
   * symbol-keyed `{message: "Success"}` the client's callers compare it with.
   */
  lemma MessagesBodyMatches(response: Response)
    requires response.body.Some?
    ensures var parsed := Hash([Entry(Str("message"), Text("Success"))]);
      && Client.ParseBody(response, Some(parsed), "messages") == Success(parsed)
      && Indifferent(Hash([Entry(Sym("message"), Text("Success"))])) == Indifferent(parsed)
  {
  }
}
