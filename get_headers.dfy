/**
 * The `GetHeaders` mixin of a HAR entry wrapper: case-insensitive,
 * first-match lookup of a header value in the entry's ordered list of
 * `{name, value}` pairs.
 */
module GetHeaders {
  import opened Wrappers

  /** One element of a HAR `headers` list. */
  datatype Header = Header(name: string, value: string)

  /** Python's `str.lower()` on one character, restricted to ASCII letters. */
  function LowerChar(c: char): char
  {
    if 'A' <= c <= 'Z' then (c as int + 32) as char else c
  }

  /** Python's `str.lower()`, restricted to ASCII letters: every character is lowered in place. */
  function Lower(s: string): (r: string)
    ensures |r| == |s|
    ensures forall i :: 0 <= i < |s| ==> r[i] == LowerChar(s[i])
  {
    if s == [] then [] else [LowerChar(s[0])] + Lower(s[1..])
  }

  /** Lowering twice is lowering once. */
  lemma LowerIdempotent(s: string)
    ensures Lower(Lower(s)) == Lower(s)
  {
  }

  /** The test in the lookup loop: the header's name equals the query once both are lowered. */
  predicate Matches(h: Header, name: string)
  {
    Lower(h.name) == Lower(name)
  }

  /** Index `i` holds the first header of `headers` whose name matches `name`. */
  ghost predicate IsFirstMatch(headers: seq<Header>, name: string, i: int)
  {
    && 0 <= i < |headers|
    && Matches(headers[i], name)
    && forall j :: 0 <= j < i ==> !Matches(headers[j], name)
  }

  /**
   * What `get_header_value` returns, as a recursive definition: the value
   * of the first matching header, or `None` when the list runs out.
   */
  function HeaderValue(headers: seq<Header>, name: string): Option<string>
  {
    if headers == [] then None
    else if Matches(headers[0], name) then Some(headers[0].value)
    else HeaderValue(headers[1..], name)
  }

  /** The lookup yields the value of the lowest-index matching header. */
  lemma {:induction false} HeaderValueFirstMatch(headers: seq<Header>, name: string, i: int)
    requires IsFirstMatch(headers, name, i)
    ensures HeaderValue(headers, name) == Some(headers[i].value)
  {
    if i > 0 {
      var tail := headers[1..];
      forall j | 0 <= j < i - 1 ensures !Matches(tail[j], name) {
        assert tail[j] == headers[j + 1];
      }
      HeaderValueFirstMatch(tail, name, i - 1);
    }
  }

  /** The lookup yields `None` exactly when no header name matches. */
  lemma {:induction false} HeaderValueNone(headers: seq<Header>, name: string)
    ensures HeaderValue(headers, name) == None <==>
            forall i :: 0 <= i < |headers| ==> !Matches(headers[i], name)
  {
    if headers != [] {
      var tail := headers[1..];
      HeaderValueNone(tail, name);
      assert forall i :: 1 <= i < |headers| ==> headers[i] == tail[i - 1];
    }
  }

  /** A returned value is the value of the first header whose name matches. */
  lemma {:induction false} HeaderValueSome(headers: seq<Header>, name: string)
    requires HeaderValue(headers, name).Some?
    ensures exists i :: IsFirstMatch(headers, name, i) &&
                        headers[i].value == HeaderValue(headers, name).value
  {
    if Matches(headers[0], name) {
      assert IsFirstMatch(headers, name, 0);
    } else {
      var tail := headers[1..];
      HeaderValueSome(tail, name);
      var k :| IsFirstMatch(tail, name, k) && tail[k].value == HeaderValue(tail, name).value;
      assert tail[k] == headers[k + 1];
      forall j | 1 <= j < k + 1 ensures !Matches(headers[j], name) {
        assert headers[j] == tail[j - 1];
      }
      assert IsFirstMatch(headers, name, k + 1);
    }
  }

  /** Two queries that lower to the same string find the same value. */
  lemma {:induction false} HeaderValueCaseInsensitive(headers: seq<Header>, a: string, b: string)
    requires Lower(a) == Lower(b)
    ensures HeaderValue(headers, a) == HeaderValue(headers, b)
  {
    if headers != [] {
      HeaderValueCaseInsensitive(headers[1..], a, b);
    }
  }

  /** Querying with the lowered name finds the same value as the name itself. */
  lemma HeaderValueLoweredQuery(headers: seq<Header>, name: string)
    ensures HeaderValue(headers, Lower(name)) == HeaderValue(headers, name)
  {
  }

  /** Headers appended after a match never shadow it: the first occurrence wins. */
  lemma {:induction false} HeaderValueNoShadow(headers: seq<Header>, extra: seq<Header>, name: string)
    requires HeaderValue(headers, name).Some?
    ensures HeaderValue(headers + extra, name) == HeaderValue(headers, name)
  {
    if !Matches(headers[0], name) {
      assert (headers + extra)[1..] == headers[1..] + extra;
      HeaderValueNoShadow(headers[1..], extra, name);
    }
  }

  /**
   * `get_header_value`: scans the headers in order and returns the value of
   * the first one whose lowered name equals the lowered query; when the loop
   * runs out it returns `None`.
   */
  method GetHeaderValue(headers: seq<Header>, name: string) returns (r: Option<string>)
    ensures r == HeaderValue(headers, name)
    ensures r.None? <==> forall i :: 0 <= i < |headers| ==> !Matches(headers[i], name)
    ensures r.Some? ==> exists i :: IsFirstMatch(headers, name, i) && headers[i].value == r.value
  {
    var i := 0;
    while i < |headers|
      invariant 0 <= i <= |headers|
      invariant forall j :: 0 <= j < i ==> !Matches(headers[j], name)
    {
      var x := headers[i];
      if Lower(x.name) == Lower(name) {
        assert IsFirstMatch(headers, name, i);
        HeaderValueFirstMatch(headers, name, i);
        return Some(x.value);
      }
      i := i + 1;
    }
    HeaderValueNone(headers, name);
    return None;
  }
}
