/**
 * The request-scoped state of the time-series HTTP controller that is not
 * I/O: the paging window read from the query string (clamped and cached on
 * first use), the tenant name derived from the time-series name, and the
 * lookup of that name among the route values of the request.
 */
module TimeSeriesController {
  import opened Wrappers

  const Int32Min: int := -0x8000_0000
  const Int32Max: int := 0x7FFF_FFFF

  const DefaultPageSize: int := 25
  const MaxPageSize: int := 1024
  const TenantNamePrefix: string := "ts/"

  const SubRoutesKey: string := "MS_SubRoutes"
  const NameKey: string := "timeSeriesName"

  predicate IsInt32(n: int)
  {
    Int32Min <= n <= Int32Max
  }

  // ---------------------------------------------------------------------
  // Int32.TryParse with the default integer number style: surrounding white
  // space, one optional sign, then decimal digits; nothing on overflow.
  // ---------------------------------------------------------------------

  /** The white space the integer style allows around a number: U+0009 to U+000D and the space. */
  predicate IsWhite(c: char)
  {
    c == ' ' || '\t' <= c <= '\r'
  }

  predicate IsDigit(c: char)
  {
    '0' <= c <= '9'
  }

  predicate AllDigits(s: string)
  {
    forall i :: 0 <= i < |s| ==> IsDigit(s[i])
  }

  function TrimStart(s: string): (r: string)
    ensures |r| <= |s| && r == s[|s| - |r|..]
    ensures r == [] || !IsWhite(r[0])
    ensures forall i :: 0 <= i < |s| - |r| ==> IsWhite(s[i])
  {
    if s != [] && IsWhite(s[0]) then TrimStart(s[1..]) else s
  }

  function TrimEnd(s: string): (r: string)
    ensures |r| <= |s| && r == s[..|r|]
    ensures r == [] || !IsWhite(r[|r| - 1])
    ensures forall i :: |r| <= i < |s| ==> IsWhite(s[i])
  {
    if s != [] && IsWhite(s[|s| - 1]) then TrimEnd(s[..|s| - 1]) else s
  }

  /** The value of a string of decimal digits, most significant first. */
  function DigitsValue(s: string): nat
    requires AllDigits(s)
  {
    if s == [] then 0 else 10 * DigitsValue(s[..|s| - 1]) + (s[|s| - 1] as int - '0' as int)
  }

  /** The number a trimmed string spells, before the range check. */
  function ParseSigned(t: string): Option<int>
  {
    var negative := |t| > 0 && t[0] == '-';
    var digits := if |t| > 0 && (t[0] == '-' || t[0] == '+') then t[1..] else t;
    if digits == [] || !AllDigits(digits) then None
    else
      var magnitude: int := DigitsValue(digits);
      Some(if negative then -magnitude else magnitude)
  }

  /**
   * int.TryParse: the parsed value, or None when the text is missing,
   * malformed, or outside the 32-bit range. (The method's out value is 0 in
   * the None case; PagingFor accounts for that.)
   */
  function TryParseInt32(s: Option<string>): (r: Option<int>)
    ensures s.None? ==> r.None?
    ensures r.Some? ==> IsInt32(r.value)
  {
    match s
    case None => None
    case Some(text) =>
      match ParseSigned(TrimEnd(TrimStart(text)))
      case Some(n) => if IsInt32(n) then Some(n) else None
      case None => None
  }

  /** The decimal spelling of a natural number, without leading zeros. */
  function FormatNat(n: nat): (r: string)
    ensures |r| > 0 && AllDigits(r)
    ensures !IsWhite(r[0]) && !IsWhite(r[|r| - 1]) && r[0] != '-' && r[0] != '+'
  {
    if n < 10 then [('0' as int + n) as char]
    else FormatNat(n / 10) + [('0' as int + n % 10) as char]
  }

  /** The decimal spelling of an integer, with a leading '-' when negative. */
  function FormatInt(n: int): string
  {
    if n < 0 then "-" + FormatNat(-n) else FormatNat(n)
  }

  lemma {:induction false} FormatNatValue(n: nat)
    ensures DigitsValue(FormatNat(n)) == n
  {
    var s := FormatNat(n);
    if n >= 10 {
      FormatNatValue(n / 10);
      assert s[..|s| - 1] == FormatNat(n / 10);
    }
  }

  /** Parsing the spelling of a 32-bit integer gives that integer back. */
  lemma FormatParseRoundTrip(n: int)
    requires IsInt32(n)
    ensures TryParseInt32(Some(FormatInt(n))) == Some(n)
  {
    FormatParsed(n);
  }

  /** Parsing the spelling of an integer outside the 32-bit range fails. */
  lemma FormatParseOverflow(n: int)
    requires !IsInt32(n)
    ensures TryParseInt32(Some(FormatInt(n))) == None
  {
    FormatParsed(n);
  }

  lemma FormatParsed(n: int)
    ensures ParseSigned(TrimEnd(TrimStart(FormatInt(n)))) == Some(n)
  {
    if n < 0 {
      NegativeFormatParsed(n);
    } else {
      var d := FormatNat(n);
      assert FormatInt(n) == d;
      FormatNatValue(n);
      DigitsParsed(d);
    }
  }

  lemma NegativeFormatParsed(n: int)
    requires n < 0
    ensures ParseSigned(TrimEnd(TrimStart(FormatInt(n)))) == Some(n)
  {
    var d := FormatNat(-n);
    assert FormatInt(n) == "-" + d;
    FormatNatValue(-n);
    assert 0 - DigitsValue(d) == n;
    NegativeDigitsParsed(d);
  }

  /** A digit string parses to its value. */
  lemma DigitsParsed(d: string)
    requires d != [] && AllDigits(d) && !IsWhite(d[|d| - 1])
    ensures ParseSigned(TrimEnd(TrimStart(d))) == Some(DigitsValue(d))
  {
    assert IsDigit(d[0]);
    NothingToTrim(d);
  }

  /** A digit string after a '-' parses to its value negated. */
  lemma NegativeDigitsParsed(d: string)
    requires d != [] && AllDigits(d) && !IsWhite(d[|d| - 1])
    ensures ParseSigned(TrimEnd(TrimStart("-" + d))) == Some(0 - DigitsValue(d))
  {
    var s := "-" + d;
    assert s[0] == '-' && s[1..] == d;
    assert s[|s| - 1] == d[|d| - 1];
    NothingToTrim(s);
    NegativeSigned(s, d);
  }

  lemma NothingToTrim(s: string)
    requires s != [] && !IsWhite(s[0]) && !IsWhite(s[|s| - 1])
    ensures TrimEnd(TrimStart(s)) == s
  {
    assert TrimStart(s) == s;
  }

  lemma NegativeSigned(s: string, d: string)
    requires |s| > 0 && s[0] == '-' && s[1..] == d && d != [] && AllDigits(d)
    ensures ParseSigned(s) == Some(0 - DigitsValue(d))
  {
  }

  /** Surrounding white space does not change what is parsed. */
  lemma ParseIgnoresWhite(pre: string, text: string, post: string)
    requires forall i :: 0 <= i < |pre| ==> IsWhite(pre[i])
    requires forall i :: 0 <= i < |post| ==> IsWhite(post[i])
    ensures TryParseInt32(Some(pre + text + post)) == TryParseInt32(Some(text))
  {
    TrimmedIgnoresWhite(pre, text, post);
  }

  lemma TrimmedIgnoresWhite(pre: string, text: string, post: string)
    requires forall i :: 0 <= i < |pre| ==> IsWhite(pre[i])
    requires forall i :: 0 <= i < |post| ==> IsWhite(post[i])
    ensures TrimEnd(TrimStart(pre + text + post)) == TrimEnd(TrimStart(text))
  {
    assert pre + text + post == pre + (text + post);
    TrimStartWhite(pre, text + post);
    TrimStartAppend(text, post);
  }

  lemma {:induction false} TrimStartWhite(pre: string, s: string)
    requires forall i :: 0 <= i < |pre| ==> IsWhite(pre[i])
    ensures TrimStart(pre + s) == TrimStart(s)
  {
    if pre != [] {
      assert (pre + s)[0] == pre[0];
      assert (pre + s)[1..] == pre[1..] + s;
      assert forall i :: 0 <= i < |pre[1..]| ==> pre[1..][i] == pre[i + 1];
      TrimStartWhite(pre[1..], s);
    } else {
      assert pre + s == s;
    }
  }

  lemma {:induction false} TrimEndWhite(s: string, post: string)
    requires forall i :: 0 <= i < |post| ==> IsWhite(post[i])
    ensures TrimEnd(s + post) == TrimEnd(s)
  {
    if post != [] {
      assert (s + post)[|s + post| - 1] == post[|post| - 1];
      assert (s + post)[..|s + post| - 1] == s + post[..|post| - 1];
      TrimEndWhite(s, post[..|post| - 1]);
    } else {
      assert s + post == s;
    }
  }

  /** Trimming the front of `text + post` keeps `post` at the end, unless `text` is all white. */
  lemma {:induction false} TrimStartAppend(text: string, post: string)
    requires forall i :: 0 <= i < |post| ==> IsWhite(post[i])
    ensures TrimEnd(TrimStart(text + post)) == TrimEnd(TrimStart(text))
  {
    if text == [] {
      assert text + post == post;
      TrimStartAllWhite(post);
    } else if IsWhite(text[0]) {
      assert (text + post)[1..] == text[1..] + post;
      TrimStartAppend(text[1..], post);
    } else {
      TrimEndWhite(text, post);
    }
  }

  lemma {:induction false} TrimStartAllWhite(s: string)
    requires forall i :: 0 <= i < |s| ==> IsWhite(s[i])
    ensures TrimStart(s) == []
  {
    if s != [] {
      TrimStartAllWhite(s[1..]);
    }
  }

  // ---------------------------------------------------------------------
  // Collections keyed without regard to case: the parsed query string and
  // the route value dictionaries both compare keys with OrdinalIgnoreCase.
  // A collection is the sequence of its entries; a lookup finds the first
  // entry whose key matches, which is the only one in a collection that
  // never holds two keys differing in case alone.
  // ---------------------------------------------------------------------

  /** The upper-case form of an ASCII letter; every other character is its own. */
  function UpperAscii(c: char): char
  {
    if 'a' <= c <= 'z' then (c as int - 32) as char else c
  }

  /** Two keys that the collections take for the same key: equal once every ASCII letter is in upper case. */
  predicate SameKey(a: string, b: string)
  {
    |a| == |b| && forall i :: 0 <= i < |a| ==> UpperAscii(a[i]) == UpperAscii(b[i])
  }

  /** The position of the first entry whose key matches `key`. */
  function FindKey<V>(entries: seq<(string, V)>, key: string): (r: Option<nat>)
    ensures r.Some? ==> r.value < |entries| && SameKey(entries[r.value].0, key)
    ensures r.Some? ==> forall j :: 0 <= j < r.value ==> !SameKey(entries[j].0, key)
    ensures r.None? ==> forall j :: 0 <= j < |entries| ==> !SameKey(entries[j].0, key)
  {
    if entries == [] then None
    else if SameKey(entries[0].0, key) then Some(0)
    else match FindKey(entries[1..], key)
      case Some(i) => Some(i + 1)
      case None => None
  }

  /** `ContainsKey`. */
  predicate HasKey<V>(entries: seq<(string, V)>, key: string)
  {
    FindKey(entries, key).Some?
  }

  /** The indexer: the value under `key`, or None when no key matches. */
  function Lookup<V>(entries: seq<(string, V)>, key: string): (r: Option<V>)
    ensures r.Some? <==> HasKey(entries, key)
  {
    match FindKey(entries, key)
    case Some(i) => Some(entries[i].1)
    case None => None
  }

  /** A first entry under another key is passed over. */
  lemma LookupPastOther<V>(entries: seq<(string, V)>, key: string)
    requires entries != [] && !SameKey(entries[0].0, key)
    ensures FindKey(entries, key) == (match FindKey(entries[1..], key) case Some(i) => Some(i + 1) case None => None)
    ensures Lookup(entries, key) == Lookup(entries[1..], key)
  {
  }

  /** The same entries, with keys that differ at most in case. */
  predicate Recased<V(==)>(e1: seq<(string, V)>, e2: seq<(string, V)>)
  {
    |e1| == |e2| && forall i :: 0 <= i < |e1| ==> SameKey(e1[i].0, e2[i].0) && e1[i].1 == e2[i].1
  }

  /** Keys that differ only in case find the same entry. */
  lemma {:induction false} LookupIgnoresCase<V>(entries: seq<(string, V)>, k1: string, k2: string)
    requires SameKey(k1, k2)
    ensures FindKey(entries, k1) == FindKey(entries, k2)
    ensures Lookup(entries, k1) == Lookup(entries, k2)
    decreases |entries|
  {
    if entries != [] {
      LookupIgnoresCase(entries[1..], k1, k2);
    }
  }

  /** Changing the case of the keys of a collection changes no lookup. */
  lemma {:induction false} RecasedLookup<V>(e1: seq<(string, V)>, e2: seq<(string, V)>, key: string)
    requires Recased(e1, e2)
    ensures FindKey(e1, key) == FindKey(e2, key)
    ensures Lookup(e1, key) == Lookup(e2, key)
    decreases |e1|
  {
    if e1 != [] {
      assert SameKey(e1[0].0, e2[0].0);
      assert Recased(e1[1..], e2[1..]) by {
        forall i | 0 <= i < |e1[1..]| ensures SameKey(e1[1..][i].0, e2[1..][i].0) && e1[1..][i].1 == e2[1..][i].1 {
          assert e1[1..][i] == e1[i + 1] && e2[1..][i] == e2[i + 1];
        }
      }
      RecasedLookup(e1[1..], e2[1..], key);
    }
  }

  // ---------------------------------------------------------------------
  // Paging
  // ---------------------------------------------------------------------

  /** The paging window: how many items to return, and from which position. */
  datatype PagingInfo = PagingInfo(pageSize: int, start: int)

  /** The parsed query string: its entries in order, keys compared without regard to case. */
  type Query = seq<(string, string)>

  /** A query-string lookup: the value of `key`, or None when it is absent. */
  function QueryValue(query: Query, key: string): Option<string>
  {
    Lookup(query, key)
  }

  function Min(a: int, b: int): int { if a <= b then a else b }
  function Max(a: int, b: int): int { if a >= b then a else b }

  /**
   * The paging window of a request: `pageSize` defaults to 25 and is
   * clamped to [1, 1024]; `start` is 0 when missing or malformed and is
   * never negative.
   */
  function PagingFor(query: Query): (p: PagingInfo)
    ensures 1 <= p.pageSize <= MaxPageSize
    ensures 0 <= p.start <= Int32Max
  {
    var start := match TryParseInt32(QueryValue(query, "start")) case Some(n) => n case None => 0;
    var pageSize := match TryParseInt32(QueryValue(query, "pageSize")) case Some(n) => n case None => DefaultPageSize;
    PagingInfo(Min(MaxPageSize, Max(1, pageSize)), Max(start, 0))
  }

  /** A page size that parses as a 32-bit integer is taken, clamped to [1, 1024]. */
  lemma PageSizeFromQuery(query: Query, n: int)
    requires TryParseInt32(QueryValue(query, "pageSize")) == Some(n)
    ensures PagingFor(query).pageSize == if n < 1 then 1 else if n > MaxPageSize then MaxPageSize else n
  {
  }

  /** The spelling of any 32-bit integer under a key spelt `pageSize` in any case is the page size, clamped. */
  lemma PageSizeAnyCase(query: Query, key: string, n: int)
    requires SameKey(key, "pageSize") && !HasKey(query, "pageSize") && IsInt32(n)
    ensures PagingFor([(key, FormatInt(n))] + query).pageSize == if n < 1 then 1 else if n > MaxPageSize then MaxPageSize else n
  {
    LookupIgnoresCase([(key, FormatInt(n))] + query, key, "pageSize");
    FormatParseRoundTrip(n);
  }

  /** A missing page size, or one that does not parse as a 32-bit integer, gives the default 25. */
  lemma PageSizeDefault(query: Query)
    requires !HasKey(query, "pageSize") || TryParseInt32(QueryValue(query, "pageSize")).None?
    ensures PagingFor(query).pageSize == DefaultPageSize
  {
  }

  /** A start that parses as a 32-bit integer is taken, raised to 0 when negative. */
  lemma StartFromQuery(query: Query, n: int)
    requires TryParseInt32(QueryValue(query, "start")) == Some(n)
    ensures PagingFor(query).start == if n < 0 then 0 else n
  {
  }

  /** A missing or malformed start gives 0. */
  lemma StartDefault(query: Query)
    requires !HasKey(query, "start") || TryParseInt32(QueryValue(query, "start")).None?
    ensures PagingFor(query).start == 0
  {
  }

  /** Only the `start` and `pageSize` entries of the query matter, whatever the case of their keys. */
  lemma PagingReadsTwoKeys(q1: Query, q2: Query)
    requires QueryValue(q1, "start") == QueryValue(q2, "start")
    requires QueryValue(q1, "pageSize") == QueryValue(q2, "pageSize")
    ensures PagingFor(q1) == PagingFor(q2)
  {
  }

  /** An entry under any other key does not change the window. */
  lemma PagingIgnoresOtherKeys(query: Query, key: string, value: string)
    requires !SameKey(key, "start") && !SameKey(key, "pageSize")
    ensures PagingFor([(key, value)] + query) == PagingFor(query)
  {
    var q := [(key, value)] + query;
    assert q[1..] == query;
    assert QueryValue(q, "start") == QueryValue(query, "start") by { LookupPastOther(q, "start"); }
    assert QueryValue(q, "pageSize") == QueryValue(query, "pageSize") by { LookupPastOther(q, "pageSize"); }
    PagingReadsTwoKeys(q, query);
  }

  /** Writing the keys of the query in another case gives the same window. */
  lemma PagingIgnoresCase(q1: Query, q2: Query)
    requires Recased(q1, q2)
    ensures PagingFor(q1) == PagingFor(q2)
  {
    RecasedLookup(q1, q2, "start");
    RecasedLookup(q1, q2, "pageSize");
  }

  // ---------------------------------------------------------------------
  // Route values
  // ---------------------------------------------------------------------

  /**
   * A route value: text, the array of sub-route value dictionaries that
   * attribute routing stores under MS_SubRoutes, or anything else
   * (including null). A dictionary is the sequence of its entries.
   */
  datatype RouteValue =
    | Text(text: string)
    | SubRoutes(routes: seq<seq<(string, RouteValue)>>)
    | OtherValue

  type RouteValues = seq<(string, RouteValue)>

  /** `value as string`. */
  function AsText(v: RouteValue): (r: Option<string>)
    ensures r.Some? <==> v.Text?
  {
    if v.Text? then Some(v.text) else None
  }

  /** FirstOrDefault over the sub-routes: the index of the first one that holds `key`. */
  function FirstRouteWith(routes: seq<RouteValues>, key: string): (r: Option<nat>)
    ensures r.Some? ==> r.value < |routes| && HasKey(routes[r.value], key)
    ensures r.Some? ==> forall j :: 0 <= j < r.value ==> !HasKey(routes[j], key)
    ensures r.None? ==> forall j :: 0 <= j < |routes| ==> !HasKey(routes[j], key)
  {
    if routes == [] then None
    else if HasKey(routes[0], key) then Some(0)
    else match FirstRouteWith(routes[1..], key)
      case Some(i) => Some(i + 1)
      case None => None
  }

  /** What the route values say about the time-series name. */
  datatype RouteLookup =
    | NotFound                    // the name is left as it was
    | Found(name: Option<string>) // the name is set; None when the value is not text
    | BadSubRoutes                // MS_SubRoutes holds no sub-route array: the cast throws

  /**
   * The route lookup of InnerInitialization. With MS_SubRoutes present, only
   * the sub-routes are searched and the first that holds the name decides;
   * otherwise the direct route value decides.
   */
  function LookupName(values: RouteValues): (r: RouteLookup)
    ensures r.BadSubRoutes? <==> HasKey(values, SubRoutesKey) && !Lookup(values, SubRoutesKey).value.SubRoutes?
  {
    if HasKey(values, SubRoutesKey) then
      var sub := Lookup(values, SubRoutesKey).value;
      if sub.SubRoutes? then
        var i := FirstRouteWith(sub.routes, NameKey);
        if i.Some? then Found(AsText(Lookup(sub.routes[i.value], NameKey).value)) else NotFound
      else BadSubRoutes
    else if HasKey(values, NameKey) then Found(AsText(Lookup(values, NameKey).value))
    else NotFound
  }

  /**
   * The cases of the lookup: without MS_SubRoutes the direct value decides
   * when present; with a sub-route array only the sub-routes are searched,
   * and the name comes from the first one that holds it.
   */
  lemma LookupNameCases(values: RouteValues)
    ensures var r := LookupName(values);
      && (!HasKey(values, SubRoutesKey) ==>
            (r.Found? <==> HasKey(values, NameKey)) && (r.Found? ==> r.name == AsText(Lookup(values, NameKey).value)))
      && (HasKey(values, SubRoutesKey) && Lookup(values, SubRoutesKey).value.SubRoutes? ==>
            var routes := Lookup(values, SubRoutesKey).value.routes;
            && (r.Found? <==> exists i :: 0 <= i < |routes| && HasKey(routes[i], NameKey))
            && (r.Found? ==> exists i :: 0 <= i < |routes| && HasKey(routes[i], NameKey)
                                       && r.name == AsText(Lookup(routes[i], NameKey).value)
                                       && forall j :: 0 <= j < i ==> !HasKey(routes[j], NameKey)))
  {
    if HasKey(values, SubRoutesKey) && Lookup(values, SubRoutesKey).value.SubRoutes? {
      var routes := Lookup(values, SubRoutesKey).value.routes;
      var i := FirstRouteWith(routes, NameKey);
      if i.Some? {
        assert HasKey(routes[i.value], NameKey);
      }
    }
  }

  /** With MS_SubRoutes present the direct value is never read, even when the sub-routes lack the name. */
  lemma SubRoutesShadowDirectValue(values: RouteValues, routes: seq<RouteValues>)
    requires Lookup(values, SubRoutesKey) == Some(SubRoutes(routes))
    requires forall j :: 0 <= j < |routes| ==> !HasKey(routes[j], NameKey)
    ensures LookupName(values) == NotFound
  {
  }

  /** A sub-route holding the name under a key in another case supplies it. */
  lemma SubRouteNameAnyCase(values: RouteValues, route: RouteValues, key: string, name: string)
    requires Lookup(values, SubRoutesKey) == Some(SubRoutes([[(key, Text(name))] + route]))
    requires SameKey(key, NameKey)
    ensures LookupName(values) == Found(Some(name))
  {
    LookupIgnoresCase([(key, Text(name))] + route, key, NameKey);
  }

  /** Writing the route keys in another case finds the same name. */
  lemma LookupNameIgnoresCase(v1: RouteValues, v2: RouteValues)
    requires Recased(v1, v2)
    ensures LookupName(v1) == LookupName(v2)
  {
    RecasedLookup(v1, v2, SubRoutesKey);
    RecasedLookup(v1, v2, NameKey);
  }

  // ---------------------------------------------------------------------
  // The controller
  // ---------------------------------------------------------------------

  class TimeSeriesApiController {
    /** The parsed query string of the request. */
    var query: Query
    /** The cached paging window; None until first read. */
    var paging: Option<PagingInfo>
    /** The time-series name from the route; None is C# null. */
    var timeSeriesName: Option<string>

    constructor (query: Query)
      ensures this.query == query && paging == None && timeSeriesName == None
    {
      this.query := query;
      paging := None;
      timeSeriesName := None;
    }

    /**
     * The route-value part of InnerInitialization: the name is overwritten
     * when the route values carry it, kept otherwise; a MS_SubRoutes value
     * that is not a sub-route array is an error and leaves the name alone.
     */
    method InitializeFromRoute(values: RouteValues) returns (err: bool)
      modifies this
      ensures err <==> LookupName(values).BadSubRoutes?
      ensures LookupName(values).Found? ==> timeSeriesName == LookupName(values).name
      ensures !LookupName(values).Found? ==> timeSeriesName == old(timeSeriesName)
      ensures query == old(query) && paging == old(paging)
    {
      err := false;
      if HasKey(values, SubRoutesKey) {
        var value := Lookup(values, SubRoutesKey).value;
        if !value.SubRoutes? {
          err := true;
          return;
        }
        var selected := FirstRouteWith(value.routes, NameKey);
        if selected.Some? {
          timeSeriesName := AsText(Lookup(value.routes[selected.value], NameKey).value);
        }
      } else if HasKey(values, NameKey) {
        timeSeriesName := AsText(Lookup(values, NameKey).value);
      }
    }

    /**
     * The Paging getter: the cached window when there is one, otherwise the
     * window computed from the query string, which is then cached.
     */
    method Paging() returns (p: PagingInfo)
      modifies this
      ensures old(paging).Some? ==> p == old(paging).value
      ensures old(paging).None? ==> p == PagingFor(query)
      ensures paging == Some(p)
      ensures query == old(query) && timeSeriesName == old(timeSeriesName)
    {
      if paging.Some? {
        return paging.value;
      }
      p := PagingFor(query);
      paging := Some(p);
    }

    /** The tenant name: "ts/" followed by the time-series name, which C# concatenation treats as empty when null. */
    function TenantName(): (r: string)
      reads this
      ensures |r| >= |TenantNamePrefix| && r[..|TenantNamePrefix|] == TenantNamePrefix
      ensures timeSeriesName.Some? ==> r[|TenantNamePrefix|..] == timeSeriesName.value
      ensures timeSeriesName.None? ==> r == TenantNamePrefix
    {
      TenantNamePrefix + match timeSeriesName case Some(n) => n case None => ""
    }
  }

  /** Distinct names give distinct tenants; a null name and the empty name share "ts/". */
  lemma TenantNamesDistinct(a: TimeSeriesApiController, b: TimeSeriesApiController)
    ensures a.timeSeriesName.Some? && b.timeSeriesName.Some? ==>
      (a.TenantName() == b.TenantName() <==> a.timeSeriesName == b.timeSeriesName)
    ensures a.timeSeriesName == None && b.timeSeriesName == Some("") ==> a.TenantName() == b.TenantName()
  {
    if a.timeSeriesName.Some? && b.timeSeriesName.Some? && a.TenantName() == b.TenantName() {
      assert a.TenantName()[|TenantNamePrefix|..] == b.TenantName()[|TenantNamePrefix|..];
    }
  }
}
