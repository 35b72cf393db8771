/** `ProcessCookies`: joins the jar, the scraped parameters and the timestamp
    into the one record handed to the store. */
module RecordBuilder {
  import opened Wrappers
  import opened CookieJar

  /** The only cookie name the record cares about. */
  const SessionCookieName: string := "2K"

  /** `InputItem`: the jar, the timestamp text, the table and the scraped map. */
  datatype InputItem = InputItem(jar: Jar, time: string, tableName: string, hrefData: map<string, string>)

  /** The `PutItemInput` the builder fills in: table plus five attributes. */
  datatype Record = Record(
    tableName: string,
    timestamp: string,
    cookieName: string,
    cookieValue: string,
    state: string,
    clientId: string)

  /** Go's `m[k]` on a `map[string]string`: the empty string for a missing key. */
  function Lookup(m: map<string, string>, k: string): string
  {
    if k in m then m[k] else ""
  }

  predicate IsSession(c: Cookie)
  {
    c.name == SessionCookieName
  }

  ghost predicate HasSessionCookie(j: Jar)
  {
    exists c :: InJar(j, c) && IsSession(c)
  }

  /** `order` lists every host of the jar exactly once: one of the orders in
      which Go's `range` over the map may visit the buckets. */
  ghost predicate IsEnumeration(order: seq<Host>, j: Jar)
  {
    && (forall a, b :: 0 <= a < b < |order| ==> order[a] != order[b])
    && (forall h :: h in order <==> h in j.buckets)
  }

  /** The hosts of `hosts` in some order, each once. */
  ghost function SeqOf(hosts: set<Host>): (order: seq<Host>)
    ensures forall h :: h in order <==> h in hosts
    ensures forall a, b :: 0 <= a < b < |order| ==> order[a] != order[b]
    decreases hosts
  {
    if hosts == {} then []
    else
      var h :| h in hosts;
      var rest := SeqOf(hosts - {h});
      [h] + rest
  }

  /** Every jar has an enumeration of its hosts, so requiring one excludes no jar. */
  lemma EnumerationExists(j: Jar)
    ensures exists order :: IsEnumeration(order, j)
  {
    assert IsEnumeration(SeqOf(j.buckets.Keys), j);
  }

  /** The cookies in the order the two nested loops meet them. */
  function Encounter(j: Jar, order: seq<Host>): seq<Cookie>
  {
    if order == [] then [] else Bucket(j, order[0]) + Encounter(j, order[1..])
  }

  /** The record built from one "2K" cookie. */
  function Build(item: InputItem, c: Cookie): Record
  {
    Record(item.tableName, item.time, c.name, c.value,
           Lookup(item.hrefData, "state"), Lookup(item.hrefData, "client_id"))
  }

  /** `cs[k]` is a "2K" cookie and no later one is. */
  ghost predicate IsLastSession(cs: seq<Cookie>, k: int)
  {
    0 <= k < |cs| && IsSession(cs[k]) && forall m :: k < m < |cs| ==> !IsSession(cs[m])
  }

  /** `v` is the value of the last "2K" cookie in `cs`. */
  ghost predicate IsLastSessionValue(cs: seq<Cookie>, v: string)
  {
    exists k :: IsLastSession(cs, k) && cs[k].value == v
  }

  /** The loop body run over `cs` in turn: every "2K" cookie overwrites the
      candidate, so the last one met wins, and without one the candidate stays. */
  function Visit(cs: seq<Cookie>, item: InputItem, params: Option<Record>): (r: Option<Record>)
    ensures (forall k :: 0 <= k < |cs| ==> !IsSession(cs[k])) ==> r == params
    ensures (exists k :: 0 <= k < |cs| && IsSession(cs[k])) ==>
              exists k :: IsLastSession(cs, k) && r == Some(Build(item, cs[k]))
    decreases |cs|
  {
    if cs == [] then params
    else
      var next := if IsSession(cs[0]) then Some(Build(item, cs[0])) else params;
      var r := Visit(cs[1..], item, next);
      assert (exists k :: 0 <= k < |cs[1..]| && IsSession(cs[1..][k])) ==>
               exists k :: IsLastSession(cs[1..], k) && r == Some(Build(item, cs[1..][k]));
      assert forall k :: IsLastSession(cs[1..], k) ==> IsLastSession(cs, k + 1);
      assert (forall k :: 0 <= k < |cs[1..]| ==> !IsSession(cs[1..][k])) && IsSession(cs[0]) ==>
               IsLastSession(cs, 0);
      r
  }

  /** A cookie is met by the loops exactly when it is in one of the listed buckets. */
  lemma {:induction false} EncounterMembers(j: Jar, order: seq<Host>)
    ensures forall c :: c in Encounter(j, order) <==> exists h :: h in order && c in Bucket(j, h)
  {
    if order != [] {
      EncounterMembers(j, order[1..]);
      forall c | exists h :: h in order && c in Bucket(j, h)
        ensures c in Encounter(j, order)
      {
        var h :| h in order && c in Bucket(j, h);
        if h != order[0] {
          assert h in order[1..];
        }
      }
    }
  }

  /** Over an enumeration, the loops meet exactly the jar's cookies. */
  lemma EncounterIsJar(j: Jar, order: seq<Host>)
    requires IsEnumeration(order, j)
    ensures forall c :: c in Encounter(j, order) <==> InJar(j, c)
  {
    EncounterMembers(j, order);
    forall c | InJar(j, c)
      ensures exists h :: h in order && c in Bucket(j, h)
    {
      var h :| h in j.buckets && c in j.buckets[h];
      assert h in order && c in Bucket(j, h);
    }
  }

  /** `ProcessCookies` over the bucket order `order`: no record exactly when the
      jar has no "2K" cookie; otherwise a record whose cookie is the last "2K"
      cookie met, and whose other fields are copied from the input. */
  function ProcessCookies(item: InputItem, order: seq<Host>): (r: Option<Record>)
    requires IsEnumeration(order, item.jar)
    ensures r.None? <==> !HasSessionCookie(item.jar)
    ensures r.Some? ==>
              && r.value.cookieName == SessionCookieName
              && r.value.timestamp == item.time
              && r.value.tableName == item.tableName
              && r.value.state == Lookup(item.hrefData, "state")
              && r.value.clientId == Lookup(item.hrefData, "client_id")
    ensures r.Some? ==> exists c :: InJar(item.jar, c) && IsSession(c) && c.value == r.value.cookieValue
    ensures r.Some? ==> IsLastSessionValue(Encounter(item.jar, order), r.value.cookieValue)
  {
    var cs := Encounter(item.jar, order);
    EncounterIsJar(item.jar, order);
    assert HasSessionCookie(item.jar) <==> exists k :: 0 <= k < |cs| && IsSession(cs[k]);
    var r := Visit(cs, item, None);
    assert r.Some? ==> IsLastSessionValue(cs, r.value.cookieValue);
    r
  }

  /** All "2K" cookies of the jar carry the same value. */
  ghost predicate SessionValuesAgree(j: Jar)
  {
    forall c, d :: InJar(j, c) && InJar(j, d) && IsSession(c) && IsSession(d) ==> c.value == d.value
  }

  /** When the jar's "2K" cookies agree, the unspecified bucket order cannot
      change the record. */
  lemma OrderIrrelevantWhenValuesAgree(item: InputItem, o1: seq<Host>, o2: seq<Host>)
    requires IsEnumeration(o1, item.jar) && IsEnumeration(o2, item.jar)
    requires SessionValuesAgree(item.jar)
    ensures ProcessCookies(item, o1) == ProcessCookies(item, o2)
  {
  }

  /** Appending a host to the order appends its bucket to the cookies met. */
  lemma {:induction false} EncounterSnoc(j: Jar, pre: seq<Host>, h: Host)
    ensures Encounter(j, pre + [h]) == Encounter(j, pre) + Bucket(j, h)
  {
    if pre != [] {
      assert (pre + [h])[1..] == pre[1..] + [h];
      EncounterSnoc(j, pre[1..], h);
    } else {
      assert Encounter(j, []) + Bucket(j, h) == Bucket(j, h);
    }
  }

  /** When the tail `b` holds a "2K" cookie, the last one of `e + b` is in `b`. */
  lemma LastSessionInTail(e: seq<Cookie>, b: seq<Cookie>, v: string)
    requires IsLastSessionValue(e + b, v)
    requires exists c :: c in b && IsSession(c)
    ensures IsLastSessionValue(b, v)
  {
    var k :| IsLastSession(e + b, k) && (e + b)[k].value == v;
    var c :| c in b && IsSession(c);
    var m :| 0 <= m < |b| && b[m] == c;
    assert (e + b)[|e| + m] == c;
    assert k >= |e|;
    assert IsLastSession(b, k - |e|) by {
      forall n | k - |e| < n < |b|
        ensures !IsSession(b[n])
      {
        assert (e + b)[|e| + n] == b[n];
      }
    }
  }

  /** Whatever the earlier buckets hold, the last host visited decides the
      value whenever its bucket has a "2K" cookie (such as `c`): the value is
      the last "2K" cookie of that bucket. */
  lemma LastBucketDecides(item: InputItem, pre: seq<Host>, h: Host, c: Cookie)
    requires IsEnumeration(pre + [h], item.jar)
    requires c in Bucket(item.jar, h) && IsSession(c)
    ensures ProcessCookies(item, pre + [h]).Some?
    ensures IsLastSessionValue(Bucket(item.jar, h), ProcessCookies(item, pre + [h]).value.cookieValue)
  {
    assert h in (pre + [h]);
    assert InJar(item.jar, c);
    EncounterSnoc(item.jar, pre, h);
    LastSessionInTail(Encounter(item.jar, pre), Bucket(item.jar, h),
                      ProcessCookies(item, pre + [h]).value.cookieValue);
  }

  /** Example: with "2K=x" under one host and "2K=y" under another, each of the
      two orders gives the value of the host it visits last. */
  lemma OrderDecidesBetweenHosts()
    ensures
      var item := InputItem(Jar(map["a.2k.com" := [Cookie("2K", "x")], "b.2k.com" := [Cookie("2K", "y")]]),
                            "1", "t", map[]);
      && ProcessCookies(item, ["a.2k.com", "b.2k.com"]) == Some(Record("t", "1", "2K", "y", "", ""))
      && ProcessCookies(item, ["b.2k.com", "a.2k.com"]) == Some(Record("t", "1", "2K", "x", "", ""))
  {
  }

  /** Example: one "2K" cookie under `2k.com`, with both parameters present,
      gives exactly that record. */
  lemma RecordExample()
    ensures
      var item := InputItem(Jar(map["2k.com" := [Cookie("2K", "abc123")]]), "1700000000", "2kcookies",
                            map["state" := "xyz", "client_id" := "42"]);
      ProcessCookies(item, ["2k.com"]) == Some(Record("2kcookies", "1700000000", "2K", "abc123", "xyz", "42"))
  {
  }
}
