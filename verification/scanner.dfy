/** The anchor scanner: `scrapePageWorker` over a token stream, and
    `ScrapePage`, which keeps the first pair the worker sends. */
module Scanner {
  import opened Wrappers

  /** The tokenizer's token kinds; `ErrorToken` also marks the end of input. */
  datatype TokenType =
    | ErrorToken
    | TextToken
    | StartTagToken
    | EndTagToken
    | SelfClosingTagToken
    | CommentToken
    | DoctypeToken

  datatype Attribute = Attribute(key: string, val: string)

  datatype Token = Token(kind: TokenType, data: string, attrs: seq<Attribute>)

  /** The worker's `[2]string`: slot 0 holds the anchor's `id`, slot 1 its `data-href`. */
  datatype Pair = Pair(id: string, href: string)

  /** One decoded `key=value` of a query string, in order of appearance. */
  datatype QueryParam = QueryParam(key: string, value: string)

  type Query = seq<QueryParam>

  /** The ways `ScrapePage` panics: the href does not parse as a URL (so its
      `Query` is called on nil), or a wanted parameter is absent (so `[0]` is
      out of range). */
  datatype ScrapeError = MalformedHref(href: string) | MissingParam(key: string)

  predicate IsAnchor(t: Token)
  {
    t.kind == StartTagToken && t.data == "a"
  }

  predicate IsHref(a: Attribute)
  {
    a.key == "data-href"
  }

  /** Slot 0 after the worker looks at `a`. */
  function NextId(a: Attribute, id: string): string
  {
    if a.key == "id" then a.val else id
  }

  /** The pairs the worker sends for one anchor's attributes, slot 0 starting as `id`. */
  function TagPairs(attrs: seq<Attribute>, id: string): seq<Pair>
  {
    if attrs == [] then []
    else
      var id' := NextId(attrs[0], id);
      (if IsHref(attrs[0]) then [Pair(id', attrs[0].val)] else []) + TagPairs(attrs[1..], id')
  }

  /** Everything the worker would send if nobody stopped listening: it walks
      the tokens up to the first error token, and every anchor start tag sends
      its pairs with slot 0 reset to empty. */
  function Emissions(tokens: seq<Token>): seq<Pair>
  {
    if tokens == [] || tokens[0].kind == ErrorToken then []
    else (if IsAnchor(tokens[0]) then TagPairs(tokens[0].attrs, "") else []) + Emissions(tokens[1..])
  }

  /** Number of `data-href` attributes in `attrs`. */
  function CountHref(attrs: seq<Attribute>): nat
  {
    if attrs == [] then 0 else (if IsHref(attrs[0]) then 1 else 0) + CountHref(attrs[1..])
  }

  /** The value of the last `id` attribute in `attrs`, or `id` if there is none. */
  function LastId(attrs: seq<Attribute>, id: string): string
    decreases |attrs|
  {
    if attrs == [] then id
    else if attrs[|attrs| - 1].key == "id" then attrs[|attrs| - 1].val
    else LastId(attrs[..|attrs| - 1], id)
  }

  lemma {:induction false} LastIdCons(a: Attribute, rest: seq<Attribute>, id: string)
    ensures LastId([a] + rest, id) == LastId(rest, NextId(a, id))
    decreases |rest|
  {
    if rest != [] {
      var n := |rest| - 1;
      assert ([a] + rest)[..n + 1] == [a] + rest[..n];
      LastIdCons(a, rest[..n], id);
    }
  }

  /** Within one tag, the worker sends one pair per `data-href`, in order; the
      pair for the `data-href` at position `j` carries that value and the last
      `id` seen before position `j` (or the starting slot value). */
  lemma {:induction false} TagPairsSpec(attrs: seq<Attribute>, id: string)
    ensures |TagPairs(attrs, id)| == CountHref(attrs)
    ensures forall j :: 0 <= j < |attrs| && IsHref(attrs[j]) ==>
              CountHref(attrs[..j]) < |TagPairs(attrs, id)| &&
              TagPairs(attrs, id)[CountHref(attrs[..j])] == Pair(LastId(attrs[..j], id), attrs[j].val)
  {
    if attrs != [] {
      var a := attrs[0];
      var rest := attrs[1..];
      var id' := NextId(a, id);
      TagPairsSpec(rest, id');
      var head := if IsHref(a) then [Pair(id', a.val)] else [];
      assert TagPairs(attrs, id) == head + TagPairs(rest, id');
      forall j | 0 <= j < |attrs| && IsHref(attrs[j])
        ensures CountHref(attrs[..j]) < |TagPairs(attrs, id)|
        ensures TagPairs(attrs, id)[CountHref(attrs[..j])] == Pair(LastId(attrs[..j], id), attrs[j].val)
      {
        if j == 0 {
          assert attrs[..0] == [];
        } else {
          assert attrs[..j] == [a] + rest[..j - 1];
          assert CountHref(attrs[..j]) == |head| + CountHref(rest[..j - 1]);
          LastIdCons(a, rest[..j - 1], id);
          assert rest[j - 1] == attrs[j];
        }
      }
    }
  }

  ghost predicate NoErrorToken(tokens: seq<Token>)
  {
    forall i :: 0 <= i < |tokens| ==> tokens[i].kind != ErrorToken
  }

  /** Before the first error token, the stream's emissions simply concatenate. */
  lemma {:induction false} EmissionsAppend(a: seq<Token>, b: seq<Token>)
    requires NoErrorToken(a)
    ensures Emissions(a + b) == Emissions(a) + Emissions(b)
  {
    if a != [] {
      assert (a + b)[0] == a[0];
      assert (a + b)[1..] == a[1..] + b;
      EmissionsAppend(a[1..], b);
      var head := if IsAnchor(a[0]) then TagPairs(a[0].attrs, "") else [];
      assert Emissions(a + b) == head + (Emissions(a[1..]) + Emissions(b));
      assert Emissions(a) == head + Emissions(a[1..]);
    } else {
      assert a + b == b;
    }
  }

  /** Nothing after the first error token is looked at. */
  lemma EmissionsStopAtError(a: seq<Token>, t: Token, b: seq<Token>)
    requires NoErrorToken(a) && t.kind == ErrorToken
    ensures Emissions(a + [t] + b) == Emissions(a)
  {
    EmissionsAppend(a, [t] + b);
    assert a + [t] + b == a + ([t] + b);
  }

  /** A token that is neither an error nor an `a` start tag is skipped. */
  lemma EmissionsIgnoreOthers(a: seq<Token>, t: Token, b: seq<Token>)
    requires NoErrorToken(a) && t.kind != ErrorToken && !IsAnchor(t)
    ensures Emissions(a + [t] + b) == Emissions(a + b)
  {
    EmissionsAppend(a, [t] + b);
    EmissionsAppend(a, b);
    assert a + [t] + b == a + ([t] + b);
    assert ([t] + b)[1..] == b;
  }

  /** Token `i` exists and no error token comes before it: the worker reaches it. */
  ghost predicate Reached(tokens: seq<Token>, i: int)
  {
    0 <= i < |tokens| && forall m :: 0 <= m < i ==> tokens[m].kind != ErrorToken
  }

  /** The worker sends nothing exactly when no anchor it reaches has a `data-href`. */
  lemma {:induction false} NoEmissionIff(tokens: seq<Token>)
    ensures Emissions(tokens) == [] <==>
              forall i :: Reached(tokens, i) && IsAnchor(tokens[i]) ==> CountHref(tokens[i].attrs) == 0
  {
    if tokens != [] && tokens[0].kind != ErrorToken {
      var rest := tokens[1..];
      NoEmissionIff(rest);
      TagPairsSpec(tokens[0].attrs, "");
      forall i | 0 <= i < |rest|
        ensures Reached(rest, i) <==> Reached(tokens, i + 1)
      {
        if Reached(tokens, i + 1) {
          assert forall m :: 0 <= m < i ==> rest[m] == tokens[m + 1];
        }
      }
      assert Reached(tokens, 0);
      if Emissions(tokens) == [] {
        forall i | Reached(tokens, i) && IsAnchor(tokens[i])
          ensures CountHref(tokens[i].attrs) == 0
        {
          if i > 0 {
            assert Reached(rest, i - 1);
            assert rest[i - 1] == tokens[i];
          }
        }
      }
    }
  }

  /** The first `data-href` of one tag, stopping there: the worker's inner loop
      up to its first send. */
  function FirstInTag(attrs: seq<Attribute>, id: string): (r: Option<Pair>)
    ensures r.None? <==> TagPairs(attrs, id) == []
    ensures r.Some? ==> TagPairs(attrs, id) != [] && r.value == TagPairs(attrs, id)[0]
  {
    if attrs == [] then None
    else
      var id' := NextId(attrs[0], id);
      if IsHref(attrs[0]) then Some(Pair(id', attrs[0].val)) else FirstInTag(attrs[1..], id')
  }

  /** The synchronous worker: scan until the first send or the first error
      token. Its answer is the head of the full emission stream, which is the
      one value `ScrapePage` receives. */
  function FirstEmission(tokens: seq<Token>): (r: Option<Pair>)
    ensures r.None? <==> Emissions(tokens) == []
    ensures r.Some? ==> Emissions(tokens) != [] && r.value == Emissions(tokens)[0]
  {
    if tokens == [] || tokens[0].kind == ErrorToken then None
    else if IsAnchor(tokens[0]) then
      match FirstInTag(tokens[0].attrs, "")
      case Some(p) => Some(p)
      case None => FirstEmission(tokens[1..])
    else FirstEmission(tokens[1..])
  }

  /** `url.Values` semantics: the first value recorded for `key`. */
  function FirstValue(q: Query, key: string): (r: Option<string>)
    ensures r.None? <==> forall i :: 0 <= i < |q| ==> q[i].key != key
    ensures r.Some? ==> exists i :: 0 <= i < |q| && q[i] == QueryParam(key, r.value) &&
                                    forall m :: 0 <= m < i ==> q[m].key != key
  {
    if q == [] then None
    else if q[0].key == key then Some(q[0].value)
    else
      var r := FirstValue(q[1..], key);
      assert r.Some? ==> exists i :: 0 <= i < |q[1..]| && q[1..][i] == QueryParam(key, r.value) &&
                                     forall m :: 0 <= m < i ==> q[1..][m].key != key;
      assert forall i :: 0 <= i < |q[1..]| ==> q[1..][i] == q[i + 1];
      r
  }

  /** The decoded query exists and carries both wanted parameters. */
  predicate HasBothParams(dq: Option<Query>)
  {
    dq.Some? && FirstValue(dq.value, "state").Some? && FirstValue(dq.value, "client_id").Some?
  }

  /** `ScrapePage`: no anchor with `data-href` gives the empty map; otherwise the
      first pair's href is decoded (`decode` stands for `url.Parse` and
      `Query`, `None` for a parse error) and its first `state` and `client_id`
      values are copied, a missing one being the panic of indexing `[0]`. */
  function ScrapePage(tokens: seq<Token>, decode: string -> Option<Query>): (r: Result<map<string, string>, ScrapeError>)
    ensures r == Ok(map[]) <==> Emissions(tokens) == []
    ensures r.Ok? && r.value != map[] ==>
              && r.value.Keys == {"state", "client_id"}
              && HasBothParams(decode(Emissions(tokens)[0].href))
              && FirstValue(decode(Emissions(tokens)[0].href).value, "state") == Some(r.value["state"])
              && FirstValue(decode(Emissions(tokens)[0].href).value, "client_id") == Some(r.value["client_id"])
    ensures r.Err? <==> Emissions(tokens) != [] && !HasBothParams(decode(Emissions(tokens)[0].href))
    ensures r.Err? && r.error.MalformedHref? ==>
              decode(Emissions(tokens)[0].href).None? && r.error.href == Emissions(tokens)[0].href
    ensures r.Err? && r.error.MissingParam? ==>
              && decode(Emissions(tokens)[0].href).Some?
              && FirstValue(decode(Emissions(tokens)[0].href).value, r.error.key).None?
              && r.error.key == (if FirstValue(decode(Emissions(tokens)[0].href).value, "state").None?
                                 then "state" else "client_id")
  {
    match FirstEmission(tokens)
    case None => Ok(map[])
    case Some(p) =>
      match decode(p.href)
      case None => Err(MalformedHref(p.href))
      case Some(q) =>
        match FirstValue(q, "state")
        case None => Err(MissingParam("state"))
        case Some(state) =>
          match FirstValue(q, "client_id")
          case None => Err(MissingParam("client_id"))
          case Some(clientId) =>
            var m := map["state" := state, "client_id" := clientId];
            assert "state" in m;
            Ok(m)
  }

  /** Only the first anchor with `data-href` counts: whatever follows it cannot
      change the result. */
  lemma {:induction false} ScrapePageUsesFirstAnchor(a: seq<Token>, t: Token, b: seq<Token>, decode: string -> Option<Query>)
    requires NoErrorToken(a) && Emissions(a) == []
    requires IsAnchor(t) && CountHref(t.attrs) > 0
    ensures ScrapePage(a + [t] + b, decode) == ScrapePage([t], decode)
  {
    TagPairsSpec(t.attrs, "");
    EmissionsAppend(a, [t] + b);
    assert a + [t] + b == a + ([t] + b);
    assert ([t] + b)[1..] == b;
    assert [t][1..] == [];
    assert Emissions([t] + b) == TagPairs(t.attrs, "") + Emissions(b);
    assert Emissions([t]) == TagPairs(t.attrs, "");
  }

  /** One anchor whose href decodes to `state=S` and `client_id=C` yields exactly
      those two entries. */
  lemma SingleAnchorExample(decode: string -> Option<Query>)
    requires decode("/auth?state=S&client_id=C") == Some([QueryParam("state", "S"), QueryParam("client_id", "C")])
    ensures
      var page := [Token(StartTagToken, "html", []),
                   Token(StartTagToken, "a", [Attribute("id", "login"), Attribute("data-href", "/auth?state=S&client_id=C")]),
                   Token(EndTagToken, "a", []),
                   Token(ErrorToken, "", [])];
      && FirstEmission(page) == Some(Pair("login", "/auth?state=S&client_id=C"))
      && ScrapePage(page, decode) == Ok(map["state" := "S", "client_id" := "C"])
  {
    var q := [QueryParam("state", "S"), QueryParam("client_id", "C")];
    assert FirstValue(q, "client_id") == Some("C") by {
      assert q[1..] == [QueryParam("client_id", "C")];
    }
  }
}
