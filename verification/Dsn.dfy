/** Data source names: [user[:password]@][net[(addr)]]/dbname[?params]. The parameter list is opaque. */
module Dsn {
  import opened Results

  datatype Config = Config(
    user: string,
    passwd: string,
    net: string,
    addr: string,
    dbName: string,
    params: Option<string>)

  datatype DsnError = Unescaped | AddrNotTerminated | NoSlash | BadParams | UnknownNetwork

  datatype Parsed = Good(config: Config) | Bad(error: DsnError)

  // ---------- searching ----------

  /** Being absent from two neighbouring pieces is being absent from both together. */
  lemma NotInPiece(s: string, c: char, lo: nat, mid: nat, hi: nat)
    requires lo <= mid <= hi <= |s|
    ensures c !in s[lo..hi] <==> c !in s[lo..mid] && c !in s[mid..hi]
  {
    assert s[lo..hi] == s[lo..mid] + s[mid..hi];
  }

  /** The first i in lo..hi with s[i] == c, or hi. */
  function First(s: string, c: char, lo: nat, hi: nat): (k: nat)
    requires lo <= hi <= |s|
    ensures lo <= k <= hi && (k < hi ==> s[k] == c) && c !in s[lo..k]
    decreases hi - lo
  {
    if lo == hi || s[lo] == c then lo
    else
      var k := First(s, c, lo + 1, hi);
      NotInPiece(s, c, lo, lo + 1, k);
      k
  }

  /** One more than the last i below n with s[i] == c, or 0. */
  function AfterLast(s: string, c: char, n: nat): (k: nat)
    requires n <= |s|
    ensures k <= n && (k > 0 ==> s[k - 1] == c) && c !in s[k..n]
  {
    if n == 0 || s[n - 1] == c then n
    else
      var k := AfterLast(s, c, n - 1);
      NotInPiece(s, c, k, n - 1, n);
      k
  }

  lemma FirstIs(s: string, c: char, lo: nat, hi: nat, k: nat)
    requires lo <= k <= hi <= |s| && c !in s[lo..k] && (k < hi ==> s[k] == c)
    ensures First(s, c, lo, hi) == k
  {
  }

  lemma AfterLastIs(s: string, c: char, n: nat, k: nat)
    requires k <= n <= |s| && c !in s[k..n] && (k > 0 ==> s[k - 1] == c)
    ensures AfterLast(s, c, n) == k
  {
  }

  // ---------- the parser ----------

  /** user and password in front of the '@' at j. */
  function Credentials(dsn: string, j: nat): (string, string)
    requires j <= |dsn|
  {
    var k := First(dsn, ':', 0, j);
    (dsn[..k], if k < j then dsn[k + 1..j] else "")
  }

  /** Network and address between start and the slash at i. */
  function Network(dsn: string, start: nat, i: nat): Parsed
    requires start <= i <= |dsn|
  {
    var k := First(dsn, '(', start, i);
    if k == i then Good(Config("", "", dsn[start..i], "", "", None))
    else if dsn[i - 1] != ')' then Bad(if ')' in dsn[k + 1..i] then Unescaped else AddrNotTerminated)
    else Good(Config("", "", dsn[start..k], dsn[k + 1..i - 1], "", None))
  }

  /** Database name and parameters behind the slash at i. */
  function Database(dsn: string, i: nat): (string, Option<string>)
    requires i < |dsn|
  {
    var j := First(dsn, '?', i + 1, |dsn|);
    (dsn[i + 1..j], if j < |dsn| then Some(dsn[j + 1..]) else None)
  }

  function WithDefaults(c: Config): Parsed {
    var net := if c.net == "" then "tcp" else c.net;
    if c.addr != "" then Good(c.(net := net))
    else if net == "tcp" then Good(c.(net := net, addr := "127.0.0.1:3306"))
    else if net == "unix" then Good(c.(net := net, addr := "/tmp/mysql.sock"))
    else Bad(UnknownNetwork)
  }

  function ParseDsn(dsn: string, paramsOk: string -> bool): Parsed {
    var slash := AfterLast(dsn, '/', |dsn|);
    if slash == 0 then
      if dsn == "" then WithDefaults(Config("", "", "", "", "", None)) else Bad(NoSlash)
    else
      var parsed := SplitAt(dsn, slash - 1, paramsOk);
      if parsed.Bad? then parsed else WithDefaults(parsed.config)
  }

  /** The parts around the slash at i. */
  function SplitAt(dsn: string, i: nat, paramsOk: string -> bool): Parsed
    requires i < |dsn|
  {
    var at := AfterLast(dsn, '@', i);
    var login := if at > 0 then Credentials(dsn, at - 1) else ("", "");
    var network := Network(dsn, at, i);
    if network.Bad? then network
    else
      var db := Database(dsn, i);
      if db.1.Some? && !paramsOk(db.1.value) then Bad(BadParams)
      else Good(Config(login.0, login.1, network.config.net, network.config.addr, db.0, db.1))
  }

  /** The scan for the first c from start on. */
  method Scan(dsn: string, c: char, start: nat, end: nat) returns (k: nat)
    requires start <= end <= |dsn|
    ensures k == First(dsn, c, start, end)
  {
    k := start;
    while k < end && dsn[k] != c
      invariant start <= k <= end
      invariant First(dsn, c, start, end) == First(dsn, c, k, end)
    {
      k := k + 1;
    }
  }

  /** The scan for the last c in front of i, which starts at i itself: there stands another character. */
  method ScanBack(dsn: string, c: char, i: nat) returns (after: nat)
    requires i < |dsn| && dsn[i] != c
    ensures after == AfterLast(dsn, c, i)
  {
    var j := i;
    while j >= 0 && dsn[j] != c
      invariant -1 <= j <= i
      invariant AfterLast(dsn, c, i) == AfterLast(dsn, c, if j == i then i else j + 1)
    {
      j := j - 1;
    }
    after := j + 1;
  }

  /** The part in front of the slash at i. */
  method ParseLeft(dsn: string, i: nat) returns (user: string, passwd: string, network: Parsed)
    requires i < |dsn| && dsn[i] == '/'
    ensures var at := AfterLast(dsn, '@', i);
            && (user, passwd) == (if at > 0 then Credentials(dsn, at - 1) else ("", ""))
            && network == Network(dsn, at, i)
  {
    user, passwd := "", "";
    hide First, AfterLast;
    var at := ScanBack(dsn, '@', i);
    if at > 0 {
      var k := Scan(dsn, ':', 0, at - 1);
      if k < at - 1 {
        passwd := dsn[k + 1..at - 1];
      }
      user := dsn[..k];
    }
    var k := Scan(dsn, '(', at, i);
    var addr := "";
    if k < i {
      if dsn[i - 1] != ')' {
        network := Bad(if ')' in dsn[k + 1..i] then Unescaped else AddrNotTerminated);
        return;
      }
      addr := dsn[k + 1..i - 1];
    }
    network := Good(Config("", "", dsn[at..k], addr, "", None));
  }

  /** The part in front of the slash at i, and the part behind it. */
  method ParseAround(dsn: string, i: nat, paramsOk: string -> bool) returns (r: Parsed)
    requires i < |dsn| && dsn[i] == '/'
    ensures r == SplitAt(dsn, i, paramsOk)
  {
    hide First, AfterLast, Network, Credentials;
    var user, passwd, network := ParseLeft(dsn, i);
    if network.Bad? {
      return network;
    }
    var j := Scan(dsn, '?', i + 1, |dsn|);
    if j < |dsn| && !paramsOk(dsn[j + 1..]) {
      return Bad(BadParams);
    }
    r := Good(Config(user, passwd, network.config.net, network.config.addr, dsn[i + 1..j],
                     if j < |dsn| then Some(dsn[j + 1..]) else None));
  }

  /** The scan for the last slash. */
  method ParseDSN(dsn: string, paramsOk: string -> bool) returns (r: Parsed)
    ensures r == ParseDsn(dsn, paramsOk)
  {
    hide SplitAt, WithDefaults;
    var cfg := Config("", "", "", "", "", None);
    var foundSlash := false;
    var i := |dsn| - 1;
    while i >= 0 && !foundSlash
      invariant -1 <= i < |dsn|
      invariant !foundSlash ==> AfterLast(dsn, '/', |dsn|) == AfterLast(dsn, '/', i + 1)
      invariant !foundSlash ==> cfg == Config("", "", "", "", "", None)
      invariant foundSlash ==> dsn != "" && ParseDsn(dsn, paramsOk) == WithDefaults(cfg)
      decreases i + if foundSlash then 0 else 1
    {
      if dsn[i] == '/' {
        foundSlash := true;
        var parsed := ParseAround(dsn, i, paramsOk);
        if parsed.Bad? {
          return parsed;
        }
        cfg := parsed.config;
      } else {
        i := i - 1;
      }
    }
    if !foundSlash && |dsn| > 0 {
      return Bad(NoSlash);
    }
    r := WithDefaults(cfg);
  }

  // ---------- the formatter ----------

  function Login(c: Config): string {
    if c.user == "" then "" else c.user + (if c.passwd == "" then "" else ":" + c.passwd) + "@"
  }

  function Endpoint(c: Config): string {
    if c.net == "" then "" else c.net + if c.addr == "" then "" else "(" + c.addr + ")"
  }

  function Tail(c: Config): string {
    c.dbName + if c.params.None? then "" else "?" + c.params.value
  }

  function FormatDsn(c: Config): string {
    Login(c) + Endpoint(c) + "/" + Tail(c)
  }

  method FormatDSN(c: Config) returns (buf: string)
    ensures buf == FormatDsn(c)
  {
    buf := "";
    if |c.user| > 0 {
      buf := buf + c.user;
      if |c.passwd| > 0 {
        buf := buf + ":" + c.passwd;
      }
      buf := buf + "@";
    }
    assert buf == Login(c);
    if |c.net| > 0 {
      buf := buf + c.net;
      if |c.addr| > 0 {
        buf := buf + "(" + c.addr + ")";
      }
    }
    assert buf == Login(c) + Endpoint(c);
    buf := buf + "/" + c.dbName;
    if c.params.Some? {
      buf := buf + "?" + c.params.value;
    }
    assert buf == Login(c) + Endpoint(c) + "/" + Tail(c);
  }

  // ---------- the round trip ----------

  /** What a data source name can say without ambiguity. */
  predicate Clean(c: Config) {
    && ':' !in c.user && (c.passwd != "" ==> c.user != "")
    && '(' !in c.net && '@' !in c.net && '@' !in c.addr
    && '/' !in c.dbName && '?' !in c.dbName
    && (c.params.Some? ==> '/' !in c.params.value)
  }

  lemma LoginBack(c: Config, rest: string)
    requires Clean(c) && c.user != ""
    ensures var dsn := Login(c) + rest;
            Credentials(dsn, |Login(c)| - 1) == (c.user, c.passwd)
  {
    var dsn := Login(c) + rest;
    var j := |Login(c)| - 1;
    assert dsn[0..|c.user|] == c.user;
    FirstIs(dsn, ':', 0, j, |c.user|);
    if c.passwd != "" { assert dsn[|c.user| + 1..j] == c.passwd; }
  }

  lemma EndpointBack(c: Config, pre: string, rest: string)
    requires Clean(c)
    ensures var dsn := pre + Endpoint(c) + rest;
            Network(dsn, |pre|, |pre| + |Endpoint(c)|)
            == Good(Config("", "", c.net, if c.net == "" then "" else c.addr, "", None))
  {
    var dsn := pre + Endpoint(c) + rest;
    var i := |pre| + |Endpoint(c)|;
    var k := |pre| + |c.net|;
    assert dsn[|pre|..k] == c.net;
    FirstIs(dsn, '(', |pre|, i, k);
    if c.net != "" && c.addr != "" { assert dsn[k + 1..i - 1] == c.addr; }
  }

  lemma TailBack(c: Config, pre: string)
    requires Clean(c)
    ensures var dsn := pre + "/" + Tail(c);
            Database(dsn, |pre|) == (c.dbName, c.params)
  {
    var dsn := pre + "/" + Tail(c);
    var j := |pre| + 1 + |c.dbName|;
    assert dsn[|pre| + 1..j] == c.dbName;
    FirstIs(dsn, '?', |pre| + 1, |dsn|, j);
    if c.params.Some? { assert dsn[j + 1..] == c.params.value; }
  }

  lemma Separators(c: Config)
    requires Clean(c)
    ensures var dsn := FormatDsn(c);
            var i := |Login(c)| + |Endpoint(c)|;
            AfterLast(dsn, '/', |dsn|) == i + 1 && AfterLast(dsn, '@', i) == |Login(c)|
  {
    TailHasNoSlash(c);
    EndpointHasNoAt(c);
    LoginEndsAt(c);
    hide Clean, Tail, Endpoint, Login, AfterLast;
    LastOf(Login(c) + Endpoint(c), Tail(c), '/');
    LastIn(Login(c), Endpoint(c), "/" + Tail(c), '@');
    Regroup(Login(c) + Endpoint(c), "/", Tail(c));
  }

  lemma Regroup(a: string, b: string, c: string)
    ensures a + (b + c) == a + b + c
  {
  }

  lemma LastOf(pre: string, piece: string, c: char)
    requires c !in piece
    ensures var s := pre + [c] + piece; AfterLast(s, c, |s|) == |pre| + 1
  {
    hide AfterLast;
    var s := pre + [c] + piece;
    assert s[|pre| + 1..|s|] == piece;
    AfterLastIs(s, c, |s|, |pre| + 1);
  }

  lemma LastIn(pre: string, piece: string, rest: string, c: char)
    requires c !in piece && (pre != "" ==> pre[|pre| - 1] == c)
    ensures AfterLast(pre + piece + rest, c, |pre| + |piece|) == |pre|
  {
    hide AfterLast;
    var s := pre + piece + rest;
    assert s[|pre|..|pre| + |piece|] == piece;
    AfterLastIs(s, c, |pre| + |piece|, |pre|);
  }

  lemma TailHasNoSlash(c: Config)
    requires Clean(c)
    ensures '/' !in Tail(c)
  {
  }

  lemma EndpointHasNoAt(c: Config)
    requires '@' !in c.net && '@' !in c.addr
    ensures '@' !in Endpoint(c)
  {
  }

  lemma LoginEndsAt(c: Config)
    ensures Login(c) != "" ==> Login(c)[|Login(c)| - 1] == '@'
  {
  }

  /** What is left out comes back as the default: the network as tcp, the address as that of the network. An
      address without a network is not written. An unknown network needs its address. */
  lemma DefaultsComeBack(c: Config, paramsOk: string -> bool)
    requires Clean(c) && (c.params.Some? ==> paramsOk(c.params.value))
    ensures ParseDsn(FormatDsn(c), paramsOk)
            == if c.net == "" then Good(c.(net := "tcp", addr := "127.0.0.1:3306"))
               else if c.addr != "" then Good(c)
               else if c.net == "tcp" then Good(c.(addr := "127.0.0.1:3306"))
               else if c.net == "unix" then Good(c.(addr := "/tmp/mysql.sock"))
               else Bad(UnknownNetwork)
  {
    hide Clean, Credentials, Network, Database, Login, Endpoint, Tail, AfterLast, WithDefaults;
    Separators(c);
    var dsn := FormatDsn(c);
    assert dsn == Login(c) + (Endpoint(c) + "/" + Tail(c));
    if c.user != "" {
      LoginBack(c, Endpoint(c) + "/" + Tail(c));
      assert |Login(c)| > 0 by { LoginSize(c); }
    } else {
      assert Login(c) == "" && c.passwd == "" by { NoLogin(c); }
    }
    assert dsn == Login(c) + Endpoint(c) + ("/" + Tail(c));
    EndpointBack(c, Login(c), "/" + Tail(c));
    TailBack(c, Login(c) + Endpoint(c));
    hide FormatDsn;
    DefaultsAre(c);
  }

  lemma DefaultsAre(c: Config)
    ensures WithDefaults(c.(addr := if c.net == "" then "" else c.addr))
            == if c.net == "" then Good(c.(net := "tcp", addr := "127.0.0.1:3306"))
               else if c.addr != "" then Good(c)
               else if c.net == "tcp" then Good(c.(addr := "127.0.0.1:3306"))
               else if c.net == "unix" then Good(c.(addr := "/tmp/mysql.sock"))
               else Bad(UnknownNetwork)
  {
  }

  /** An endpoint with an opening parenthesis and no closing one in front of the slash is refused, with one error
      or the other according to whether there is a closing one elsewhere. */
  lemma OpenEndpointIsRefused(net: string, rest: string, tail: string, paramsOk: string -> bool)
    requires '(' !in net && '@' !in net && '@' !in rest && '/' !in tail && (rest != "" ==> rest[|rest| - 1] != ')')
    ensures ParseDsn(net + "(" + rest + "/" + tail, paramsOk)
            == Bad(if ')' in rest then Unescaped else AddrNotTerminated)
  {
    hide AfterLast, First, Database, Credentials;
    var endpoint := net + "(" + rest;
    var dsn := endpoint + "/" + tail;
    LastOf(endpoint, tail, '/');
    assert endpoint + ['/'] + tail == dsn;
    LastIn("", endpoint, "/" + tail, '@');
    Regroup(endpoint, "/", tail);
    assert "" + endpoint + ("/" + tail) == dsn;
    var i := |endpoint|;
    assert dsn[0..|net|] == net;
    FirstIs(dsn, '(', 0, i, |net|);
    assert dsn[|net| + 1..i] == rest;
    assert dsn[i - 1] == if rest == "" then '(' else rest[|rest| - 1];
  }

  lemma LoginSize(c: Config)
    ensures |Login(c)| > 0 <==> c.user != ""
  {
  }

  lemma NoLogin(c: Config)
    requires Clean(c) && c.user == ""
    ensures Login(c) == "" && c.passwd == ""
  {
  }

  lemma CredentialsClean(dsn: string, j: nat)
    requires j <= |dsn|
    ensures ':' !in Credentials(dsn, j).0
  {
  }

  lemma NetworkClean(dsn: string, start: nat, i: nat)
    requires start <= i <= |dsn| && '@' !in dsn[start..i]
    ensures var n := Network(dsn, start, i);
            n.Good? ==> '(' !in n.config.net && '@' !in n.config.net && '@' !in n.config.addr
  {
    PieceHasNot(dsn, '@', start, i, First(dsn, '(', start, i));
  }

  lemma DatabaseClean(dsn: string, i: nat)
    requires i < |dsn| && '/' !in dsn[i + 1..]
    ensures var db := Database(dsn, i);
            && '/' !in db.0 && '?' !in db.0 && (db.1.Some? ==> '/' !in db.1.value)
            && '/' !in (db.0 + if db.1.None? then "" else "?" + db.1.value)
  {
    var j := First(dsn, '?', i + 1, |dsn|);
    assert dsn[i + 1..|dsn|] == dsn[i + 1..];
    PieceHasNot(dsn, '/', i + 1, |dsn|, j);
    if j < |dsn| { assert dsn[j + 1..|dsn|] == dsn[j + 1..]; }
  }

  /** What a parse returns is clean, except that it may have a password and no user: then the name began
      with ':'. Such a name is not the format of its own result. */
  lemma ParsedIsClean(c: Config, paramsOk: string -> bool)
    requires c.net != "" && c.addr != ""
    requires ParseDsn(FormatDsn(c), paramsOk) == Good(c)
    ensures Clean(c)
  {
    var dsn := FormatDsn(c);
    hide Network, Credentials, Database, FormatDsn, WithDefaults, AfterLast;
    assert '/' in dsn by { HasSlash(c); }
    var slash := AfterLast(dsn, '/', |dsn|);
    assert dsn[0..|dsn|] == dsn;
    var i := slash - 1;
    var at := AfterLast(dsn, '@', i);
    assert dsn[i + 1..|dsn|] == dsn[i + 1..];
    NetworkClean(dsn, at, i);
    DatabaseClean(dsn, i);
    if at > 0 { CredentialsClean(dsn, at - 1); }
    var login := if at > 0 then Credentials(dsn, at - 1) else ("", "");
    var network, db := Network(dsn, at, i).config, Database(dsn, i);
    DefaultsClean(Config(login.0, login.1, network.net, network.addr, db.0, db.1), c);
    if c.user == "" && c.passwd != "" {
      PasswordAlone(c, dsn, i, at);
    }
  }

  lemma DefaultsClean(parsed: Config, c: Config)
    requires WithDefaults(parsed) == Good(c)
    requires '(' !in parsed.net && '@' !in parsed.net && '@' !in parsed.addr
    ensures '(' !in c.net && '@' !in c.net && '@' !in c.addr
    ensures c == parsed.(net := c.net, addr := c.addr)
  {
  }

  lemma HasSlash(c: Config)
    ensures '/' in FormatDsn(c)
  {
    assert FormatDsn(c)[|Login(c) + Endpoint(c)|] == '/';
  }

  /** The parts of a piece without c are without c. */
  lemma PieceHasNot(s: string, c: char, lo: nat, hi: nat, k: nat)
    requires lo <= k <= hi <= |s| && c !in s[lo..hi]
    ensures c !in s[lo..k] && c !in s[k..hi] && (k < hi ==> c !in s[k + 1..hi])
    ensures k + 1 <= hi - 1 ==> c !in s[k + 1..hi - 1]
  {
    assert forall x :: lo <= x < hi ==> s[x] == s[lo..hi][x - lo];
  }

  lemma PasswordAlone(c: Config, dsn: string, i: nat, at: nat)
    requires c.user == "" && dsn == FormatDsn(c) && i < |dsn| && dsn[i] == '/' && '/' !in dsn[i + 1..]
    requires '@' !in c.net && '@' !in c.addr && '/' !in Tail(c)
    requires at <= i && (at > 0 ==> dsn[at - 1] == '@')
    ensures at == 0
  {
    EndpointHasNoAt(c);
    NoUser(c);
    hide Endpoint, Tail, FormatDsn;
    SlashStands(Endpoint(c), Tail(c), i);
    InFront(Endpoint(c), Tail(c), at);
  }

  lemma NoUser(c: Config)
    requires c.user == ""
    ensures FormatDsn(c) == Endpoint(c) + "/" + Tail(c)
  {
    hide Endpoint, Tail;
    assert "" + Endpoint(c) == Endpoint(c);
  }

  lemma SlashStands(a: string, b: string, i: nat)
    requires '/' !in b
    requires var s := a + "/" + b; i < |s| && s[i] == '/' && '/' !in s[i + 1..]
    ensures i == |a|
  {
    var s := a + "/" + b;
    assert s[|a|] == '/';
    InRest(s, i, |a|);
    InBack(a, b, i);
  }

  lemma InRest(s: string, i: nat, n: nat)
    ensures i < n < |s| ==> s[n] in s[i + 1..]
  {
    assert i < n < |s| ==> s[i + 1..][n - i - 1] == s[n];
  }

  lemma InBack(a: string, b: string, i: nat)
    ensures var s := a + "/" + b; |a| < i < |s| ==> s[i] in b
  {
    var s := a + "/" + b;
    assert |a| < i < |s| ==> s[i] == b[i - |a| - 1];
  }

  lemma InFront(a: string, b: string, at: nat)
    ensures 0 < at <= |a| ==> (a + "/" + b)[at - 1] in a
  {
    assert 0 < at <= |a| ==> (a + "/" + b)[at - 1] == a[at - 1];
  }

  /** The structural round trip: a config with a network and an address is recovered from its data source
      name exactly when it is clean and its parameters parse. Passwords and addresses may contain '/', ':',
      '(' and ')', passwords also '@'. */
  lemma DsnRoundTrip(c: Config, paramsOk: string -> bool)
    requires c.net != "" && c.addr != ""
    ensures ParseDsn(FormatDsn(c), paramsOk) == Good(c)
            <==> Clean(c) && (c.params.Some? ==> paramsOk(c.params.value))
  {
    hide Clean, FormatDsn;
    if Clean(c) && (c.params.Some? ==> paramsOk(c.params.value)) {
      DefaultsComeBack(c, paramsOk);
    } else if ParseDsn(FormatDsn(c), paramsOk) == Good(c) {
      ParsedIsClean(c, paramsOk);
    }
  }
}
