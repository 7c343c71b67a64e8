/** The greeting rule of the hello-world micro-service: "Vanakam World" when
    a name is missing or empty, otherwise "Vanakam <last>, <first>", trimmed
    of surrounding white space. The TypeScript and Go handlers share it; they
    differ in how a missing name arrives, in which characters their trim
    removes, and in the routing around it. */
module Greeting {

  datatype Option<T> = None | Some(value: T)

  const Default: string := "Vanakam World"
  const Salutation: string := "Vanakam "

  /** The characters JavaScript's `String.prototype.trim` removes: the
      ECMAScript WhiteSpace and LineTerminator characters. */
  predicate JsSpace(c: char)
  {
    c == '\t' || c == '\n' || c == '\U{000B}' || c == '\U{000C}' || c == '\r' || c == ' ' ||
    c == '\U{00A0}' || c == '\U{1680}' || ('\U{2000}' <= c <= '\U{200A}') ||
    c == '\U{2028}' || c == '\U{2029}' || c == '\U{202F}' || c == '\U{205F}' || c == '\U{3000}' ||
    c == '\U{FEFF}'
  }

  /** The characters Go's `strings.TrimSpace` removes: `unicode.IsSpace`. */
  predicate GoSpace(c: char)
  {
    c == '\t' || c == '\n' || c == '\U{000B}' || c == '\U{000C}' || c == '\r' || c == ' ' ||
    c == '\U{0085}' || c == '\U{00A0}' || c == '\U{1680}' || ('\U{2000}' <= c <= '\U{200A}') ||
    c == '\U{2028}' || c == '\U{2029}' || c == '\U{202F}' || c == '\U{205F}' || c == '\U{3000}'
  }

  /** The number of leading characters a trim removes. */
  function TrimStart(s: string, space: char -> bool): (i: nat)
    ensures i <= |s|
    ensures forall k :: 0 <= k < i ==> space(s[k])
    ensures i < |s| ==> !space(s[i])
  {
    if s == [] || !space(s[0]) then 0 else 1 + TrimStart(s[1..], space)
  }

  /** Where the part a trim keeps ends: all after it is removed. */
  function TrimEnd(s: string, space: char -> bool): (j: nat)
    ensures j <= |s|
    ensures forall k :: j <= k < |s| ==> space(s[k])
    ensures 0 < j ==> !space(s[j - 1])
  {
    if s == [] || !space(s[|s| - 1]) then |s| else TrimEnd(s[..|s| - 1], space)
  }

  /** s without its leading and trailing `space` characters. */
  function Trim(s: string, space: char -> bool): (r: string)
    ensures r == [] <==> forall k :: 0 <= k < |s| ==> space(s[k])
    ensures r != [] ==> r == s[TrimStart(s, space)..TrimEnd(s, space)]
    ensures r != [] ==> !space(r[0]) && !space(r[|r| - 1])
  {
    var i, j := TrimStart(s, space), TrimEnd(s, space);
    if j <= i then [] else s[i..j]
  }

  /** Trims that agree on every character of s give the same result. */
  lemma {:induction false} TrimAgrees(s: string, sp1: char -> bool, sp2: char -> bool)
    requires forall k :: 0 <= k < |s| ==> sp1(s[k]) == sp2(s[k])
    ensures Trim(s, sp1) == Trim(s, sp2)
  {
    TrimStartAgrees(s, sp1, sp2);
    TrimEndAgrees(s, sp1, sp2);
  }

  lemma {:induction false} TrimStartAgrees(s: string, sp1: char -> bool, sp2: char -> bool)
    requires forall k :: 0 <= k < |s| ==> sp1(s[k]) == sp2(s[k])
    ensures TrimStart(s, sp1) == TrimStart(s, sp2)
  {
    if s != [] {
      assert forall k :: 0 <= k < |s[1..]| ==> s[1..][k] == s[k + 1];
      TrimStartAgrees(s[1..], sp1, sp2);
    }
  }

  lemma {:induction false} TrimEndAgrees(s: string, sp1: char -> bool, sp2: char -> bool)
    requires forall k :: 0 <= k < |s| ==> sp1(s[k]) == sp2(s[k])
    ensures TrimEnd(s, sp1) == TrimEnd(s, sp2)
  {
    if s != [] {
      assert forall k :: 0 <= k < |s| - 1 ==> s[..|s| - 1][k] == s[k];
      TrimEndAgrees(s[..|s| - 1], sp1, sp2);
    }
  }

  /** The untrimmed greeting for two names, last name first: the
      salutation, the last name, a comma and a space, the first name. */
  function Format(last: string, first: string): (r: string)
    ensures |r| == |Salutation| + |last| + 2 + |first|
    ensures r[..|Salutation|] == Salutation
    ensures r[|Salutation|..|Salutation| + |last|] == last
    ensures r[|Salutation| + |last|..|Salutation| + |last| + 2] == ", "
    ensures r[|r| - |first|..] == first
  {
    Salutation + last + ", " + first
  }

  /** Trimming the formatted greeting keeps everything up to and including
      the comma after the last name, and drops only trailing white space. */
  lemma FormatTrimmed(last: string, first: string, space: char -> bool)
    requires !space('V') && !space(',')
    ensures var u := Format(last, first); var m := Trim(u, space);
      Salutation + last + "," <= m && m <= u &&
      forall k :: |m| <= k < |u| ==> space(u[k])
  {
    var u := Format(last, first);
    var c := |Salutation| + |last|;
    assert u[0] == 'V' && u[c] == ',';
    assert u[..c + 1] == Salutation + last + ",";
  }

  /** The default greeting has no comma, so no formatted greeting equals it. */
  lemma FormattedIsNotDefault(last: string, first: string, space: char -> bool)
    requires !space('V') && !space(',')
    ensures Trim(Format(last, first), space) != Default
  {
    FormatTrimmed(last, first, space);
    var m := Trim(Format(last, first), space);
    var c := |Salutation| + |last|;
    assert m[c] == ',';
    assert forall k :: 0 <= k < |Default| ==> Default[k] != ',';
  }

  /** The default greeting is left unchanged by either trim. */
  lemma DefaultTrimmed()
    ensures Trim(Default, JsSpace) == Default && Trim(Default, GoSpace) == Default
  {
    assert !JsSpace(Default[0]) && !JsSpace(Default[|Default| - 1]);
    assert !GoSpace(Default[0]) && !GoSpace(Default[|Default| - 1]);
  }

  // ---------------------------------------------------------------------
  // TypeScript: `handleRequest` in typescript/main.ts.
  // ---------------------------------------------------------------------

  /** A query value JavaScript treats as true: present and non-empty. */
  predicate Truthy(name: Option<string>)
  {
    name.Some? && name.value != ""
  }

  /** The message of the TypeScript handler for the decoded query values:
      the default exactly when a name is missing or empty; otherwise the
      formatted greeting with trailing white space dropped, which names the
      last name before the comma. */
  function TsMessage(firstName: Option<string>, lastName: Option<string>): (r: string)
    ensures r == Default <==> !Truthy(firstName) || !Truthy(lastName)
    ensures Truthy(firstName) && Truthy(lastName) ==>
      var u := Format(lastName.value, firstName.value);
      Salutation + lastName.value + "," <= r && r <= u &&
      forall k :: |r| <= k < |u| ==> JsSpace(u[k])
  {
    if !Truthy(firstName) || !Truthy(lastName) then
      DefaultTrimmed();
      Trim(Default, JsSpace)
    else
      FormatTrimmed(lastName.value, firstName.value, JsSpace);
      FormattedIsNotDefault(lastName.value, firstName.value, JsSpace);
      Trim(Format(lastName.value, firstName.value), JsSpace)
  }

  /** The payload the handlers encode as JSON: `{ message }`. */
  datatype Body = NoBody | Json(message: string)

  const JsonHeaders: map<string, string> := map["Content-Type" := "application/json"]

  /** The part of `http.IncomingMessage` the handler reads, with the query
      already decoded. */
  datatype Request = Request(verb: string, pathname: string,
                             firstName: Option<string>, lastName: Option<string>)

  /** The part of `http.ServerResponse` the handler writes. */
  class ServerResponse {
    var statusCode: int
    var headers: map<string, string>
    var body: Body

    constructor ()
      ensures statusCode == 0 && headers == map[] && body == NoBody
    {
      statusCode, headers, body := 0, map[], NoBody;
    }

    /** `writeHead`. */
    method WriteHead(status: int, hs: map<string, string>)
      modifies this
      ensures statusCode == status && headers == hs && body == old(body)
    {
      statusCode, headers := status, hs;
    }

    /** `end`. */
    method End(b: Body)
      modifies this
      ensures body == b && statusCode == old(statusCode) && headers == old(headers)
    {
      body := b;
    }
  }

  /** `handleRequest`: only GET on `/hello` is answered, with 200, a JSON
      content type and the greeting; anything else gets 404, no headers and
      no body. */
  method HandleRequest(req: Request, res: ServerResponse)
    modifies res
    ensures req.pathname == "/hello" && req.verb == "GET" ==>
      res.statusCode == 200 && res.headers == JsonHeaders &&
      res.body == Json(TsMessage(req.firstName, req.lastName))
    ensures !(req.pathname == "/hello" && req.verb == "GET") ==>
      res.statusCode == 404 && res.headers == map[] && res.body == NoBody
  {
    if req.pathname == "/hello" && req.verb == "GET" {
      var fullMessage: string;
      if !Truthy(req.firstName) || !Truthy(req.lastName) {
        fullMessage := Default;
      } else {
        fullMessage := Format(req.lastName.value, req.firstName.value);
      }
      res.WriteHead(200, JsonHeaders);
      res.End(Json(Trim(fullMessage, JsSpace)));
    } else {
      res.WriteHead(404, map[]);
      res.End(NoBody);
    }
  }

  // ---------------------------------------------------------------------
  // Go: `sayHello` in go/main.go.
  // ---------------------------------------------------------------------

  /** `url.Values.Get`: the first value of the key, or "" when there is none. */
  function QueryGet(query: map<string, seq<string>>, key: string): (r: string)
    ensures key in query && |query[key]| > 0 ==> r == query[key][0]
    ensures !(key in query && |query[key]| > 0) ==> r == ""
  {
    if key in query && |query[key]| > 0 then query[key][0] else ""
  }

  /** The message of the Go handler for the two looked-up names: the
      default exactly when a name is empty (a missing key reads as "");
      otherwise the formatted greeting with trailing white space dropped. */
  function GoMessage(firstName: string, lastName: string): (r: string)
    ensures r == Default <==> firstName == "" || lastName == ""
    ensures firstName != "" && lastName != "" ==>
      var u := Format(lastName, firstName);
      Salutation + lastName + "," <= r && r <= u &&
      forall k :: |r| <= k < |u| ==> GoSpace(u[k])
  {
    if firstName == "" || lastName == "" then
      DefaultTrimmed();
      Trim(Default, GoSpace)
    else
      FormatTrimmed(lastName, firstName, GoSpace);
      FormattedIsNotDefault(lastName, firstName, GoSpace);
      Trim(Format(lastName, firstName), GoSpace)
  }

  /** A missing TypeScript value is the empty Go value. */
  function OrEmpty(name: Option<string>): string
  {
    if name.Some? then name.value else ""
  }

  /** The two trims treat every character of s alike. */
  predicate TrimsAgreeOn(s: string)
  {
    forall k :: 0 <= k < |s| ==> JsSpace(s[k]) == GoSpace(s[k])
  }

  /** s holds neither U+0085, which only Go trims, nor U+FEFF, which only
      JavaScript trims. */
  predicate NoDisputedSpace(s: string)
  {
    forall k :: 0 <= k < |s| ==> s[k] != '\U{0085}' && s[k] != '\U{FEFF}'
  }

  lemma UndisputedAgree(s: string)
    requires NoDisputedSpace(s)
    ensures TrimsAgreeOn(s)
  {
  }

  lemma AgreeConcat(a: string, b: string)
    requires TrimsAgreeOn(a) && TrimsAgreeOn(b)
    ensures TrimsAgreeOn(a + b)
  {
    forall k | 0 <= k < |a + b|
      ensures JsSpace((a + b)[k]) == GoSpace((a + b)[k])
    {
      if k >= |a| {
        assert (a + b)[k] == b[k - |a|];
      }
    }
  }

  /** The two trims agree on the formatted greeting of undisputed names. */
  lemma FormatAgrees(last: string, first: string)
    requires NoDisputedSpace(last) && NoDisputedSpace(first)
    ensures TrimsAgreeOn(Format(last, first))
  {
    assert TrimsAgreeOn(Salutation) by {
      assert forall k :: 0 <= k < |Salutation| ==> Salutation[k] in {'V', 'a', 'n', 'k', 'm', ' '};
    }
    assert TrimsAgreeOn(", ") by {
      assert forall k :: 0 <= k < 2 ==> ", "[k] in {',', ' '};
    }
    UndisputedAgree(last);
    UndisputedAgree(first);
    AgreeConcat(Salutation, last);
    AgreeConcat(Salutation + last, ", ");
    AgreeConcat(Salutation + last + ", ", first);
  }

  /** Both handlers give the same greeting for the same names, unless a name
      holds U+0085 or U+FEFF, the only characters their trims disagree on. */
  lemma SameGreeting(firstName: Option<string>, lastName: Option<string>)
    requires NoDisputedSpace(OrEmpty(firstName)) && NoDisputedSpace(OrEmpty(lastName))
    ensures TsMessage(firstName, lastName) == GoMessage(OrEmpty(firstName), OrEmpty(lastName))
  {
    DefaultTrimmed();
    if Truthy(firstName) && Truthy(lastName) {
      var u := Format(lastName.value, firstName.value);
      FormatAgrees(lastName.value, firstName.value);
      TrimAgrees(u, JsSpace, GoSpace);
    }
  }

  /** The part of `http.ResponseWriter` the handler uses. */
  class ResponseWriter {
    var header: map<string, string>
    var status: int
    var body: Body

    constructor ()
      ensures header == map[] && status == 0 && body == NoBody
    {
      header, status, body := map[], 0, NoBody;
    }

    /** `Header().Set`. */
    method SetHeader(key: string, value: string)
      modifies this
      ensures header == old(header)[key := value]
      ensures status == old(status) && body == old(body)
    {
      header := header[key := value];
    }

    /** `WriteHeader`. */
    method WriteHeader(code: int)
      modifies this
      ensures status == code && header == old(header) && body == old(body)
    {
      status := code;
    }

    /** `json.NewEncoder(w).Encode`. */
    method Encode(b: Body)
      modifies this
      ensures body == b && header == old(header) && status == old(status)
    {
      body := b;
    }
  }

  /** `sayHello`: whatever the method, answer 200 with a JSON content type
      and the greeting for the first values of the two keys. */
  method SayHello(w: ResponseWriter, query: map<string, seq<string>>)
    modifies w
    ensures w.header == old(w.header)["Content-Type" := "application/json"]
    ensures w.status == 200
    ensures w.body == Json(GoMessage(QueryGet(query, "First name"), QueryGet(query, "Last name")))
  {
    var firstName := QueryGet(query, "First name");
    var lastName := QueryGet(query, "Last name");
    var fullMessage: string;
    if firstName == "" || lastName == "" {
      fullMessage := Default;
    } else {
      fullMessage := Format(lastName, firstName);
    }
    w.SetHeader("Content-Type", "application/json");
    w.WriteHeader(200);
    w.Encode(Json(Trim(fullMessage, GoSpace)));
  }
}
