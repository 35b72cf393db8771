/** The per-iteration cookie jar (`CookieManager`): a map from host to the
    cookie list the transport last handed over for that host. */
module CookieJar {
  import opened Wrappers

  type Host = string

  /** A request URL as the jar sees it: only its host selects a bucket. */
  datatype Url = Url(host: Host)

  /** A cookie as the program reads it: only its name and value are ever looked at. */
  datatype Cookie = Cookie(name: string, value: string)

  datatype Jar = Jar(buckets: map<Host, seq<Cookie>>)

  /** One call the transport makes to `SetCookies`. */
  type Write = (Url, seq<Cookie>)

  /** The list stored for `h`, or the empty list that Go yields for a missing key. */
  function Bucket(j: Jar, h: Host): seq<Cookie>
  {
    if h in j.buckets then j.buckets[h] else []
  }

  /** True when `c` sits in some host's bucket. */
  ghost predicate InJar(j: Jar, c: Cookie)
  {
    exists h :: h in j.buckets && c in j.buckets[h]
  }

  /** The jar the collector loop makes at the top of every iteration. */
  function NewJar(): (j: Jar)
    ensures forall u: Url :: Cookies(j, u) == []
    ensures forall c: Cookie :: !InJar(j, c)
  {
    Jar(map[])
  }

  /** `Cookies(u)`: what is stored under `u`'s host, or nothing. */
  function Cookies(j: Jar, u: Url): seq<Cookie>
  {
    Bucket(j, u.host)
  }

  /** `SetCookies(u, cs)`: the host's list becomes `cs`; nothing is merged and
      no other host is touched. */
  function SetCookies(j: Jar, u: Url, cs: seq<Cookie>): (r: Jar)
    ensures Cookies(r, u) == cs
    ensures forall v: Url :: v.host != u.host ==> Cookies(r, v) == Cookies(j, v)
    ensures r.buckets.Keys == j.buckets.Keys + {u.host}
  {
    Jar(j.buckets[u.host := cs])
  }

  /** Setting a host twice keeps only the second list. */
  lemma SetCookiesReplaces(j: Jar, u: Url, v: Url, first: seq<Cookie>, second: seq<Cookie>)
    requires u.host == v.host
    ensures SetCookies(SetCookies(j, u, first), v, second) == SetCookies(j, v, second)
    ensures Cookies(SetCookies(SetCookies(j, u, first), v, second), u) == second
  {
  }

  /** The jar after the transport made the calls `ws`, in order. */
  function ApplyWrites(j: Jar, ws: seq<Write>): Jar
    decreases |ws|
  {
    if ws == [] then j
    else SetCookies(ApplyWrites(j, ws[..|ws| - 1]), ws[|ws| - 1].0, ws[|ws| - 1].1)
  }

  /** The list of the last write in `ws` aimed at host `h`, if any. */
  function LastWrite(ws: seq<Write>, h: Host): Option<seq<Cookie>>
    decreases |ws|
  {
    if ws == [] then None
    else if ws[|ws| - 1].0.host == h then Some(ws[|ws| - 1].1)
    else LastWrite(ws[..|ws| - 1], h)
  }

  /** After a series of writes, each host holds the list of its last write, and
      a host never written keeps what it had. */
  lemma {:induction false} ApplyWritesKeepsLast(j: Jar, ws: seq<Write>, u: Url)
    ensures Cookies(ApplyWrites(j, ws), u) == LastWrite(ws, u.host).GetOr(Cookies(j, u))
    decreases |ws|
  {
    if ws != [] {
      ApplyWritesKeepsLast(j, ws[..|ws| - 1], u);
    }
  }

  /** Reading a jar that started empty: the host's last write in this
      iteration, or the empty list for a host never set. */
  lemma CookiesOfFreshJar(ws: seq<Write>, u: Url)
    ensures Cookies(ApplyWrites(NewJar(), ws), u) == LastWrite(ws, u.host).GetOr([])
  {
    ApplyWritesKeepsLast(NewJar(), ws, u);
  }

  /** A jar that started empty holds only cookies handed over by one of the
      writes: nothing leaks in from anywhere else. */
  lemma {:induction false} FreshJarHoldsOnlyWrites(ws: seq<Write>, c: Cookie)
    requires InJar(ApplyWrites(NewJar(), ws), c)
    ensures exists k :: 0 <= k < |ws| && c in ws[k].1
    decreases |ws|
  {
    var j := ApplyWrites(NewJar(), ws);
    var h :| h in j.buckets && c in j.buckets[h];
    var last := |ws| - 1;
    if ws[last].0.host == h {
      assert c in ws[last].1;
    } else {
      var prev := ApplyWrites(NewJar(), ws[..last]);
      assert Cookies(j, Url(h)) == Cookies(prev, Url(h));
      assert InJar(prev, c);
      FreshJarHoldsOnlyWrites(ws[..last], c);
      var k :| 0 <= k < last && c in ws[..last][k].1;
      assert c in ws[k].1;
    }
  }
}
