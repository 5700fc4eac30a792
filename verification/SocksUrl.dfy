/**
  The SOCKS proxy URL parser (mosquitto__parse_socks_url, connectivity/mqtt/mqtt_common.c): one
  pass over the text after the scheme, deciding at each ':' and '@' what it has just read.
 */
module SocksUrl {
  import opened Common

  datatype Parts = Parts(username: Option<string>, password: Option<string>, host: string, port: Option<string>)

  // ----- the single pass -----

  datatype Scan = Scan(
    start: nat, auth: bool, userOrHost: Option<string>,
    username: Option<string>, password: Option<string>, host: Option<string>)

  const FRESH := Scan(0, false, None, None, None, None)

  predicate Separator(c: char) {
    c == ':' || c == '@'
  }

  /** What the loop body does at index i; None is a jump to the error exit. */
  function Step(s: string, st: Scan, i: nat): Option<Scan>
    requires st.start <= i < |s|
  {
    if s[i] == ':' then
      if i == st.start then None
      else if st.auth then
        if st.host.Some? then None else Some(st.(host := Some(s[st.start..i]), start := i + 1))
      else if st.userOrHost.None? then Some(st.(userOrHost := Some(s[st.start..i]), start := i + 1))
      else Some(st)
    else if s[i] == '@' then
      if i == st.start then None
      else if st.userOrHost.Some? then
        Some(st.(auth := true, username := st.userOrHost, userOrHost := None,
                 password := Some(s[st.start..i]), start := i + 1))
      else if st.username.Some? then None
      else Some(st.(auth := true, username := Some(s[st.start..i]), start := i + 1))
    else Some(st)
  }

  function ScanFrom(s: string, st: Scan, i: nat): (r: Option<Scan>)
    requires st.start <= i <= |s|
    ensures r.Some? ==> r.value.start <= |s|
    decreases |s| - i
  {
    if i == |s| then Some(st)
    else
      match Step(s, st, i)
      case None => None
      case Some(st') => ScanFrom(s, st', i + 1)
  }

  /** Dealing with the remainder after the loop. */
  function Finish(s: string, st: Scan): Option<Parts>
    requires st.start <= |s|
  {
    var rest := s[st.start..];
    if rest == "" then
      if st.host.Some? then Some(Parts(st.username, st.password, st.host.value, None)) else None
    else if st.host.Some? then Some(Parts(st.username, st.password, st.host.value, Some(rest)))
    else if st.userOrHost.Some? then Some(Parts(st.username, st.password, st.userOrHost.value, Some(rest)))
    else Some(Parts(st.username, st.password, rest, None))
  }

  function Split(s: string): Option<Parts> {
    match ScanFrom(s, FRESH, 0)
    case None => None
    case Some(st) => Finish(s, st)
  }

  method SplitLoop(s: string) returns (r: Option<Parts>)
    ensures r == Split(s)
  {
    var start, haveAuth := 0, false;
    var userOrHost: Option<string> := None;
    var username: Option<string> := None;
    var password: Option<string> := None;
    var host: Option<string> := None;
    for i := 0 to |s|
      invariant 0 <= start <= i
      invariant ScanFrom(s, Scan(start, haveAuth, userOrHost, username, password, host), i) == ScanFrom(s, FRESH, 0)
    {
      if s[i] == ':' {
        if i == start {
          return None;
        }
        if haveAuth {
          if host.Some? {
            return None;
          }
          host := Some(s[start..i]);
          start := i + 1;
        } else if userOrHost.None? {
          userOrHost := Some(s[start..i]);
          start := i + 1;
        }
      } else if s[i] == '@' {
        if i == start {
          return None;
        }
        haveAuth := true;
        if userOrHost.Some? {
          username := userOrHost;
          userOrHost := None;
          password := Some(s[start..i]);
          start := i + 1;
        } else {
          if username.Some? {
            return None;
          }
          username := Some(s[start..i]);
          start := i + 1;
        }
      }
    }
    var port: Option<string> := None;
    if |s| > start {
      if host.Some? {
        port := Some(s[start..]);
      } else if userOrHost.Some? {
        host := userOrHost;
        port := Some(s[start..]);
      } else {
        host := Some(s[start..]);
      }
    }
    if host.None? {
      return None;
    }
    r := Some(Parts(username, password, host.value, port));
  }

  // ----- the grammar the pass recognises -----

  ghost predicate FirstAt(s: string, c: char, from: nat, k: nat) {
    from <= k <= |s| && (forall i :: from <= i < k ==> s[i] != c) && (k < |s| ==> s[k] == c)
  }

  lemma {:induction false} FirstExists(s: string, c: char, from: nat)
    requires from <= |s|
    ensures exists k: nat :: FirstAt(s, c, from, k)
    decreases |s| - from
  {
    if from == |s| || s[from] == c {
      assert FirstAt(s, c, from, from);
    } else {
      FirstExists(s, c, from + 1);
      var k: nat :| FirstAt(s, c, from + 1, k);
      assert FirstAt(s, c, from, k);
    }
  }

  /** The first position of c from a place on, or the length. */
  ghost function Find(s: string, c: char, from: nat): (k: nat)
    requires from <= |s|
    ensures FirstAt(s, c, from, k)
  {
    FirstExists(s, c, from);
    var k: nat :| FirstAt(s, c, from, k);
    k
  }

  /** Before `end`: name, or name:rest with both parts present and rest not starting with ':'. */
  ghost function NameAndRest(s: string, end: nat): Option<(string, Option<string>)>
    requires end <= |s|
  {
    var c := Find(s, ':', 0);
    if end == 0 then None
    else if c >= end then Some((s[..end], None))
    else if c == 0 || c + 1 == end || s[c + 1] == ':' then None
    else Some((s[..c], Some(s[c + 1..end])))
  }

  /** From b on: host, or host:port with at most one ':'; the port may be empty. */
  ghost function HostAndPort(s: string, b: nat): Option<(string, Option<string>)>
    requires b <= |s|
  {
    var c := Find(s, ':', b);
    if b == |s| then None
    else if c == |s| then Some((s[b..], None))
    else if c == b || Find(s, ':', c + 1) < |s| then None
    else Some((s[b..c], if c + 1 == |s| then None else Some(s[c + 1..])))
  }

  /** [username[:password]@]host[:port], with at most one '@'. */
  ghost function Grammar(s: string): Option<Parts> {
    var a := Find(s, '@', 0);
    if a == |s| then
      match NameAndRest(s, a)
      case None => None
      case Some((host, port)) => Some(Parts(None, None, host, port))
    else if Find(s, '@', a + 1) < |s| then None
    else
      match (NameAndRest(s, a), HostAndPort(s, a + 1))
      case (Some((username, password)), Some((host, port))) => Some(Parts(Some(username), password, host, port))
      case _ => None
  }

  // ----- the pass recognises exactly the grammar -----

  lemma {:induction false} SkipPlain(s: string, st: Scan, i: nat, j: nat)
    requires st.start <= i <= j <= |s|
    requires forall k :: i <= k < j ==> !Separator(s[k])
    ensures ScanFrom(s, st, i) == ScanFrom(s, st, j)
    decreases j - i
  {
    if i < j {
      SkipPlain(s, st, i + 1, j);
    }
  }

  /** Once a name is pending and the text after it has begun, further ':' are passed over. */
  lemma {:induction false} SkipColons(s: string, st: Scan, i: nat, j: nat)
    requires !st.auth && st.userOrHost.Some? && st.start < i <= j <= |s|
    requires forall k :: i <= k < j ==> s[k] != '@'
    ensures ScanFrom(s, st, i) == ScanFrom(s, st, j)
    decreases j - i
  {
    if i < j {
      SkipColons(s, st, i + 1, j);
    }
  }

  /** The state after s[..a], which has no '@'. */
  ghost function NameState(s: string, a: nat): Option<Scan>
    requires a <= |s|
  {
    var c := Find(s, ':', 0);
    if c >= a then Some(FRESH)
    else if c == 0 || (c + 1 < a && s[c + 1] == ':') then None
    else Some(FRESH.(start := c + 1, userOrHost := Some(s[..c])))
  }

  lemma ScanName(s: string, a: nat)
    requires a <= |s| && forall i :: 0 <= i < a ==> s[i] != '@'
    ensures match NameState(s, a)
            case None => ScanFrom(s, FRESH, 0) == None
            case Some(st) => st.start <= a && ScanFrom(s, FRESH, 0) == ScanFrom(s, st, a)
  {
    var c := Find(s, ':', 0);
    SkipPlain(s, FRESH, 0, if c < a then c else a);
    if c < a && c > 0 {
      var st := FRESH.(start := c + 1, userOrHost := Some(s[..c]));
      assert s[0..c] == s[..c];
      assert ScanFrom(s, FRESH, c) == ScanFrom(s, st, c + 1);
      if c + 1 < a && s[c + 1] != ':' {
        SkipColons(s, st, c + 2, a);
      }
    }
  }

  ghost function FirstSeparator(s: string, b: nat): (k: nat)
    requires b <= |s|
    ensures b <= k <= |s| && forall i :: b <= i < k ==> !Separator(s[i])
    ensures k < |s| ==> Separator(s[k])
  {
    var c, a := Find(s, ':', b), Find(s, '@', b);
    if c < a then c else a
  }

  /** After host and ':', any further separator is an error. */
  lemma ScanPort(s: string, st: Scan)
    requires st.start <= |s| && st.auth && st.userOrHost.None? && st.host.Some? && st.username.Some?
    ensures ScanFrom(s, st, st.start) == if FirstSeparator(s, st.start) < |s| then None else Some(st)
  {
    SkipPlain(s, st, st.start, FirstSeparator(s, st.start));
  }

  /** The scan of what follows the '@'. */
  lemma ScanHost(s: string, st: Scan)
    requires st.start <= |s| && st.auth && st.userOrHost.None? && st.host.None? && st.username.Some?
    ensures var n := FirstSeparator(s, st.start);
            ScanFrom(s, st, st.start) ==
              if n == |s| then Some(st)
              else if s[n] == '@' || n == st.start || FirstSeparator(s, n + 1) < |s| then None
              else Some(st.(host := Some(s[st.start..n]), start := n + 1))
  {
    var n := FirstSeparator(s, st.start);
    SkipPlain(s, st, st.start, n);
    if n < |s| && s[n] == ':' && n > st.start {
      var st' := st.(host := Some(s[st.start..n]), start := n + 1);
      assert ScanFrom(s, st, n) == ScanFrom(s, st', n + 1);
      ScanPort(s, st');
    }
  }

  lemma FindPast(s: string, c: char, b: nat, m: nat)
    requires b <= |s| && b <= m <= Find(s, c, b)
    ensures Find(s, c, m) == Find(s, c, b)
  {
  }

  lemma FinishHost(s: string, st: Scan)
    requires st.start <= |s| && st.auth && st.userOrHost.None? && st.host.None? && st.username.Some?
    ensures (match ScanFrom(s, st, st.start) case None => None case Some(x) => Finish(s, x)) ==
            if Find(s, '@', st.start) < |s| then None
            else match HostAndPort(s, st.start)
                 case None => None
                 case Some((host, port)) => Some(Parts(st.username, st.password, host, port))
  {
    var n := FirstSeparator(s, st.start);
    ScanHost(s, st);
    if n < |s| && s[n] == ':' {
      FindPast(s, '@', st.start, n + 1);
    }
  }

  lemma SplitWithoutAt(s: string)
    requires Find(s, '@', 0) == |s|
    ensures Split(s) == Grammar(s)
  {
    ScanName(s, |s|);
    assert s[..|s|] == s && s[0..] == s;
    var st := NameState(s, |s|);
    if st.Some? {
      assert s[st.value.start..|s|] == s[st.value.start..];
    }
  }

  lemma SplitWithAt(s: string)
    requires Find(s, '@', 0) < |s|
    ensures Split(s) == Grammar(s)
  {
    var a := Find(s, '@', 0);
    ScanName(s, a);
    var st := NameState(s, a);
    if st.Some? {
      var step := Step(s, st.value, a);
      if step.Some? {
        FinishHost(s, step.value);
      }
    }
  }

  /** For every text, the single pass computes the grammar. */
  lemma SplitIsGrammar(s: string)
    ensures Split(s) == Grammar(s)
  {
    if Find(s, '@', 0) == |s| {
      SplitWithoutAt(s);
    } else {
      SplitWithAt(s);
    }
  }
}
