/**
 * The anti-forgery crumb and the request headers.  Before every POST the tool
 * asks `/crumbIssuer/api/xml` for `field:value`; a 404 means the server issues
 * no crumb.  The crumb header is merged into a copy of the caller's headers.
 */
module Crumb {
  import opened Wrappers
  import opened Text

  type Headers = map<string, string>

  datatype Verb = GET | POST

  /** A server answer: HTTP status and body. */
  datatype Response = Response(status: int, content: string)

  /** Python's `split` on one character: the pieces between the separators, never none. */
  function Split(s: string, c: char): (parts: seq<string>)
    ensures |parts| >= 1
    ensures forall k :: 0 <= k < |parts| ==> c !in parts[k]
    decreases |s|
  {
    var i := Find(s, c);
    if i == |s| then [s] else [s[..i]] + Split(s[i + 1..], c)
  }

  /** Joining the pieces again with the separator. */
  function Join(parts: seq<string>, c: char): string
    requires |parts| >= 1
  {
    if |parts| == 1 then parts[0] else parts[0] + [c] + Join(parts[1..], c)
  }

  lemma {:induction false} CountSplit(s: string, c: char, i: nat)
    requires i <= |s|
    requires forall j :: 0 <= j < i ==> s[j] != c
    ensures Count(s, c) == Count(s[i..], c)
  {
    if i > 0 {
      CountSplit(s[1..], c, i - 1);
      assert s[1..][i - 1..] == s[i..];
    }
  }

  /** `split` yields one piece more than there are separators, and `join` undoes it. */
  lemma {:induction false} SplitJoin(s: string, c: char)
    ensures |Split(s, c)| == Count(s, c) + 1
    ensures Join(Split(s, c), c) == s
    decreases |s|
  {
    var i := Find(s, c);
    CountSplit(s, c, i);
    if i < |s| {
      SplitJoin(s[i + 1..], c);
      assert s[i..][1..] == s[i + 1..];
      assert s == s[..i] + [c] + s[i + 1..];
    } else {
      assert Count(s[i..], c) == 0;
    }
  }

  lemma {:induction false} SplitOfJoin(parts: seq<string>, c: char)
    requires |parts| >= 1
    requires forall k :: 0 <= k < |parts| ==> c !in parts[k]
    ensures Split(Join(parts, c), c) == parts
  {
    if |parts| > 1 {
      var s := Join(parts, c);
      assert s == parts[0] + ([c] + Join(parts[1..], c));
      assert Find(s, c) == |parts[0]| by { FindAfter(parts[0], [c] + Join(parts[1..], c), c); }
      assert s[|parts[0]| + 1..] == Join(parts[1..], c);
      SplitOfJoin(parts[1..], c);
    } else {
      assert Find(parts[0], c) == |parts[0]| by { FindAfter(parts[0], [], c); }
    }
  }

  lemma FindAfter(a: string, b: string, c: char)
    requires c !in a
    requires b == [] || b[0] == c
    ensures Find(a + b, c) == |a|
  {
    var f := Find(a + b, c);
    assert forall j :: 0 <= j < |a| ==> (a + b)[j] == a[j];
    if b != [] {
      assert (a + b)[|a|] == c;
    } else {
      assert a + b == a;
    }
  }

  /**
   * `jenkins_crumb`: a 404 gives no header; a 200 whose body splits on `:` into
   * exactly two parts gives the header `{field: value}`; anything else, and a
   * request that raises (`None`), is an error.
   */
  function CrumbHeaders(resp: Option<Response>): (r: Result<Headers, string>)
    ensures resp.Some? && resp.value.status == 404 ==> r == Ok(map[])
    ensures resp.Some? && resp.value.status == 200 ==>
      (r.Ok? <==> Count(resp.value.content, ':') == 1)
    ensures r.Ok? && resp.Some? && resp.value.status == 200 ==>
      exists field, value :: ':' !in field && ':' !in value
        && resp.value.content == field + ":" + value && r.value == map[field := value]
    ensures r.Ok? ==> resp.Some? && resp.value.status in {200, 404}
  {
    if resp.None? then Err("crumb request failed")
    else if resp.value.status == 404 then Ok(map[])
    else if resp.value.status != 200 then Err("unexpected crumb status")
    else
      var parts := Split(resp.value.content, ':');
      SplitJoin(resp.value.content, ':');
      if |parts| == 2 then
        assert resp.value.content == parts[0] + ":" + parts[1] by {
          assert Join(parts[1..], ':') == parts[1];
        }
        Ok(map[parts[0] := parts[1]])
      else Err("crumb is not field:value")
  }

  /** The header a well-formed crumb body gives is its field and value. */
  lemma CrumbRoundTrip(field: string, value: string)
    requires ':' !in field && ':' !in value
    ensures CrumbHeaders(Some(Response(200, field + ":" + value))) == Ok(map[field := value])
  {
    SplitOfJoin([field, value], ':');
    assert Join([field, value], ':') == field + ":" + value by {
      assert Join([field, value][1..], ':') == value;
    }
  }

  /**
   * The headers `jenkins_request` sends: a copy of the caller's headers and,
   * for a POST, the crumb header on top.  The crumb answer is only consulted
   * for a POST; a failed crumb request fails the request.
   */
  method RequestHeaders(verb: Verb, caller: Headers, crumb: Option<Response>)
    returns (r: Result<Headers, string>)
    ensures verb == GET ==> r == Ok(caller)
    ensures verb == POST ==> (r.Ok? <==> CrumbHeaders(crumb).Ok?)
    ensures verb == POST && r.Ok? ==>
      var issued := CrumbHeaders(crumb).value;
      && r.value.Keys == caller.Keys + issued.Keys
      && (forall k :: k in issued ==> r.value[k] == issued[k])
      && (forall k :: k in caller && k !in issued ==> r.value[k] == caller[k])
  {
    var headers := caller;
    if verb == POST {
      var issued := CrumbHeaders(crumb);
      if issued.Err? {
        return Err(issued.error);
      }
      headers := headers + issued.value;
    }
    return Ok(headers);
  }
}
