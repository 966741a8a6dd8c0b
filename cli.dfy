/** The two computations of the command-line tool (backend/cli.py) that are not
    plumbing: splitting the synchronous database URL into its connection
    parameters, and extracting the INSERT statements of the seed script and
    running them one by one while counting successes and failures. The same
    URL block appears three times in the tool; `ParseDbUrl` models each. */
module Cli {
  import opened Base
  import opened Text

  // ---------------------------------------------------------------- DB URL

  const DriverPrefix: string := "mysql+pymysql://"
  const DefaultPort: int := 3306

  /** Python's `s.replace(pat, '')`: every occurrence of `pat`, scanning from
      the left and never overlapping, removed. */
  function RemoveAll(s: string, pat: string): (r: string)
    requires pat != []
    ensures |r| <= |s|
    decreases |s|
  {
    if s == [] then []
    else if StartsWith(s, pat) then RemoveAll(s[|pat|..], pat)
    else [s[0]] + RemoveAll(s[1..], pat)
  }

  /** No "//" anywhere in `s`. */
  predicate NoDoubleSlash(s: string)
  {
    forall i :: 0 <= i < |s| - 1 ==> !(s[i] == '/' && s[i + 1] == '/')
  }

  /** A string without "//" holds no driver prefix, so the replacement leaves
      it alone. */
  lemma {:induction false} RemoveAllKeeps(s: string)
    requires NoDoubleSlash(s)
    ensures RemoveAll(s, DriverPrefix) == s
  {
    if s != [] {
      if |s| >= |DriverPrefix| {
        assert !(s[14] == '/' && s[15] == '/');
        assert s[..|DriverPrefix|][14] == s[14] && s[..|DriverPrefix|][15] == s[15];
      }
      assert !StartsWith(s, DriverPrefix);
      assert NoDoubleSlash(s[1..]) by {
        forall i | 0 <= i < |s[1..]| - 1 ensures !(s[1..][i] == '/' && s[1..][i + 1] == '/') {
          assert s[1..][i] == s[i + 1] && s[1..][i + 1] == s[i + 2];
        }
      }
      RemoveAllKeeps(s[1..]);
    }
  }

  /** The prefix itself goes first. */
  lemma RemoveLeadingPrefix(s: string)
    ensures RemoveAll(DriverPrefix + s, DriverPrefix) == RemoveAll(s, DriverPrefix)
  {
    var t := DriverPrefix + s;
    assert t[..|DriverPrefix|] == DriverPrefix;
    assert t[|DriverPrefix|..] == s;
  }

  datatype DbConfig = DbConfig(host: string, port: int, user: string, password: string, dbname: string)

  /** The ValueErrors of the block: unpacking `split('@')` or `split(':')`
      into two names, and `int()` of the port. */
  datatype UrlError = AuthHostUnpack | CredentialsUnpack | PortNotInteger

  /** The text before the first '/' once the driver prefix is removed. */
  function AuthHost(url: string): string
  {
    Split(RemoveAll(url, DriverPrefix), '/')[0]
  }

  /** The URL block: the driver prefix is removed everywhere, the text before
      the first '/' holds `user:password@host[:port]`, and the database name
      is the second '/'-piece up to its first '?' (empty when there is no '/').
      The user part must split into exactly two pieces on '@', and the
      credentials into exactly two on ':'; the port is the second ':'-piece of
      the host part, 3306 when there is none. */
  function ParseDbUrl(url: string): (r: Result<DbConfig, UrlError>)
    ensures r == Err(AuthHostUnpack) <==> Count(AuthHost(url), '@') != 1
    ensures Count(AuthHost(url), '@') == 1 ==>
      (r == Err(CredentialsUnpack) <==> Count(Split(AuthHost(url), '@')[0], ':') != 1)
    ensures r.Ok? ==>
      && '@' !in r.value.user && ':' !in r.value.user
      && '@' !in r.value.password && ':' !in r.value.password
      && '@' !in r.value.host && ':' !in r.value.host && '/' !in r.value.host
      && '/' !in r.value.dbname && '?' !in r.value.dbname
    ensures r.Ok? && ':' !in Split(AuthHost(url), '@')[1] ==> r.value.port == DefaultPort
    ensures '/' !in RemoveAll(url, DriverPrefix) && r.Ok? ==> r.value.dbname == ""
    ensures Count(AuthHost(url), '@') == 1 && Count(Split(AuthHost(url), '@')[0], ':') == 1 ==>
      (r == Err(PortNotInteger) <==>
         |Split(Split(AuthHost(url), '@')[1], ':')| > 1 && ParseInt(Split(Split(AuthHost(url), '@')[1], ':')[1]).None?)
    ensures r.Ok? ==>
      var parts := Split(RemoveAll(url, DriverPrefix), '/');
      var credentials := Split(Split(AuthHost(url), '@')[0], ':');
      var hostPort := Split(Split(AuthHost(url), '@')[1], ':');
      && r.value.user == credentials[0]
      && r.value.password == credentials[1]
      && r.value.host == hostPort[0]
      && Some(r.value.port) == (if |hostPort| > 1 then ParseInt(hostPort[1]) else Some(DefaultPort))
      && r.value.dbname == (if |parts| > 1 then Split(parts[1], '?')[0] else "")
  {
    var stripped := RemoveAll(url, DriverPrefix);
    var parts := Split(stripped, '/');
    var authHost := parts[0];
    CountZero(stripped, '/');
    var dbname := if |parts| > 1 then Split(parts[1], '?')[0] else "";
    assert '/' !in dbname by {
      if |parts| > 1 { SplitPiecesWithin(parts[1], '?'); }
    }
    var pieces := Split(authHost, '@');
    if |pieces| != 2 then Err(AuthHostUnpack)
    else
      var credentials := Split(pieces[0], ':');
      if |credentials| != 2 then Err(CredentialsUnpack)
      else
        var hostPort := Split(pieces[1], ':');
        SplitPiecesWithin(authHost, '@');
        SplitPiecesWithin(pieces[0], ':');
        SplitPiecesWithin(pieces[1], ':');
        CountZero(pieces[1], ':');
        if |hostPort| > 1 then
          match ParseInt(hostPort[1])
          case None => Err(PortNotInteger)
          case Some(port) => Ok(DbConfig(hostPort[0], port, credentials[0], credentials[1], dbname))
        else Ok(DbConfig(hostPort[0], DefaultPort, credentials[0], credentials[1], dbname))
  }

  /** `host` and an optional `:port`. */
  function HostPart(host: string, port: Option<nat>): string
  {
    if port.Some? then host + [':'] + NatToString(port.value) else host
  }

  /** `user:password@host[:port]`. */
  function AuthPart(user: string, password: string, host: string, port: Option<nat>): string
  {
    user + [':'] + password + ['@'] + HostPart(host, port)
  }

  /** `dbname` and an optional `?query`. */
  function TailPart(dbname: string, query: Option<string>): string
  {
    if query.Some? then dbname + ['?'] + query.value else dbname
  }

  /** A URL written from its parts. */
  function FormatDbUrl(user: string, password: string, host: string, port: Option<nat>,
                       dbname: string, query: Option<string>): string
  {
    DriverPrefix + (AuthPart(user, password, host, port) + ['/'] + TailPart(dbname, query))
  }

  /** Parameters that need no escaping. */
  predicate PlainName(s: string)
  {
    ':' !in s && '@' !in s && '/' !in s
  }

  lemma PlainDecimal(n: nat)
    ensures PlainName(NatToString(n))
  {
    var s := NatToString(n);
    assert forall i :: 0 <= i < |s| ==> IsDigit(s[i]);
  }

  lemma HostPartSplits(host: string, port: Option<nat>)
    requires PlainName(host)
    ensures '@' !in HostPart(host, port) && '/' !in HostPart(host, port)
    ensures port.None? ==> Split(HostPart(host, port), ':') == [host]
    ensures port.Some? ==> Split(HostPart(host, port), ':') == [host, NatToString(port.value)]
  {
    if port.Some? {
      PlainDecimal(port.value);
      SplitTwo(host, NatToString(port.value), ':');
    } else {
      SplitNoSeparator(host, ':');
    }
  }

  /** The user part of a written URL splits back into its parts. */
  lemma AuthPartSplits(user: string, password: string, host: string, port: Option<nat>)
    requires PlainName(user) && PlainName(password) && PlainName(host)
    ensures '/' !in AuthPart(user, password, host, port)
    ensures Split(AuthPart(user, password, host, port), '@') == [user + [':'] + password, HostPart(host, port)]
    ensures Split(user + [':'] + password, ':') == [user, password]
  {
    HostPartSplits(host, port);
    var credentials := user + [':'] + password;
    assert '@' !in credentials && '/' !in credentials;
    SplitTwo(credentials, HostPart(host, port), '@');
    SplitTwo(user, password, ':');
  }

  /** The name part of a written URL gives back the name. */
  lemma TailPartName(dbname: string, query: Option<string>)
    requires '?' !in dbname
    ensures Split(TailPart(dbname, query), '?')[0] == dbname
  {
    if query.Some? {
      SplitAtFirst(dbname, query.value, '?');
    } else {
      SplitNoSeparator(dbname, '?');
    }
  }

  lemma OneSlash(a: string, t: string)
    requires '/' !in a && '/' !in t
    ensures NoDoubleSlash(a + ['/'] + t)
  {
    var rest := a + ['/'] + t;
    forall i | 0 <= i < |rest| - 1 ensures !(rest[i] == '/' && rest[i + 1] == '/') {
      if i < |a| {
        assert rest[i] == a[i];
      } else {
        assert rest[i + 1] == t[i - |a|];
      }
    }
  }

  /** What is left of a written URL once the prefix is removed. */
  lemma StrippedFormatted(user: string, password: string, host: string, port: Option<nat>,
                          dbname: string, query: Option<string>)
    requires PlainName(user) && PlainName(password) && PlainName(host)
    requires '/' !in TailPart(dbname, query)
    ensures RemoveAll(FormatDbUrl(user, password, host, port, dbname, query), DriverPrefix)
      == AuthPart(user, password, host, port) + ['/'] + TailPart(dbname, query)
  {
    var rest := AuthPart(user, password, host, port) + ['/'] + TailPart(dbname, query);
    AuthPartSplits(user, password, host, port);
    OneSlash(AuthPart(user, password, host, port), TailPart(dbname, query));
    RemoveAllKeeps(rest);
    RemoveLeadingPrefix(rest);
  }

  /** Parsing a URL written from its parts gives the parts back, with port 3306
      when the URL names none; a query after '?' does not reach the name. */
  lemma ParseFormatted(user: string, password: string, host: string, port: Option<nat>,
                       dbname: string, query: Option<string>)
    requires PlainName(user) && PlainName(password) && PlainName(host)
    requires '/' !in dbname && '?' !in dbname
    requires query.Some? ==> '/' !in query.value
    ensures ParseDbUrl(FormatDbUrl(user, password, host, port, dbname, query)) ==
      Ok(DbConfig(host, if port.Some? then port.value else DefaultPort, user, password, dbname))
  {
    var a := AuthPart(user, password, host, port);
    var t := TailPart(dbname, query);
    assert '/' !in t;
    StrippedFormatted(user, password, host, port, dbname, query);
    AuthPartSplits(user, password, host, port);
    SplitTwo(a, t, '/');
    HostPartSplits(host, port);
    TailPartName(dbname, query);
    if port.Some? { ParseIntOfNat(port.value); }
  }

  // ------------------------------------------------------- seed statements

  const InsertKeyword: string := "INSERT INTO"

  /** One pattern character under `re.IGNORECASE`, for the ASCII letters and
      the space of the keyword. */
  predicate MatchesIgnoringCase(ch: char, pattern: char)
  {
    ch == pattern || ('A' <= pattern <= 'Z' && ch as int == pattern as int + 32)
  }

  predicate StartsWithKeyword(s: string)
  {
    |s| >= |InsertKeyword| && forall i :: 0 <= i < |InsertKeyword| ==> MatchesIgnoringCase(s[i], InsertKeyword[i])
  }

  /** The position of the first `c` in `s`. */
  function FirstIndex(s: string, c: char): (r: Option<nat>)
    ensures r.None? <==> c !in s
    ensures r.Some? ==> r.value < |s| && s[r.value] == c && c !in s[..r.value]
  {
    if s == [] then None
    else if s[0] == c then Some(0)
    else match FirstIndex(s[1..], c)
      case None => None
      case Some(k) =>
        assert s[..k + 1] == [s[0]] + s[1..][..k];
        Some(k + 1)
  }

  /** The length of the match of `INSERT INTO[^;]+;` at the start of `s`: the
      keyword, then everything up to the first ';', which must not come
      straight after the keyword. */
  function MatchLength(s: string): (r: Option<nat>)
    ensures r.Some? ==> |InsertKeyword| + 2 <= r.value <= |s|
  {
    if !StartsWithKeyword(s) then None
    else match FirstIndex(s[|InsertKeyword|..], ';')
      case None => None
      case Some(k) => if k == 0 then None else Some(|InsertKeyword| + k + 1)
  }

  /** What every extracted statement looks like: the keyword, at least one
      character that is not ';', and one final ';'. */
  predicate InsertShape(stmt: string)
  {
    && StartsWithKeyword(stmt) && |stmt| >= |InsertKeyword| + 2
    && stmt[|stmt| - 1] == ';' && ';' !in stmt[..|stmt| - 1]
  }

  lemma MatchShape(s: string)
    requires MatchLength(s).Some?
    ensures InsertShape(s[..MatchLength(s).value])
  {
    var n := MatchLength(s).value;
    var k := FirstIndex(s[|InsertKeyword|..], ';').value;
    var stmt := s[..n];
    assert stmt[..|stmt| - 1] == s[..|InsertKeyword|] + s[|InsertKeyword|..][..k];
    assert ';' !in s[..|InsertKeyword|] by {
      forall i | 0 <= i < |InsertKeyword| ensures s[i] != ';' {
        assert MatchesIgnoringCase(s[i], InsertKeyword[i]);
      }
    }
  }

  /** `re.findall(r'INSERT INTO[^;]+;', text, re.IGNORECASE | re.DOTALL)`:
      scanning from the left, a match is taken whole and the scan resumes
      after it; elsewhere the scan moves on by one character. */
  function FindInserts(text: string): (stmts: seq<string>)
    ensures forall i :: 0 <= i < |stmts| ==> InsertShape(stmts[i])
    decreases |text|
  {
    if text == [] then []
    else match MatchLength(text)
      case Some(n) =>
        MatchShape(text);
        [text[..n]] + FindInserts(text[n..])
      case None => FindInserts(text[1..])
  }

  /** `piece` occurs in `text` at position `p`. */
  predicate IsAt(text: string, p: int, piece: string)
  {
    0 <= p <= |text| - |piece| && text[p..p + |piece|] == piece
  }

  /** `stmts` occur in `text` in this order, each after the end of the one before. */
  ghost predicate InOrder(stmts: seq<string>, text: string)
    decreases |stmts|
  {
    stmts == [] ||
    exists p :: IsAt(text, p, stmts[0]) && InOrder(stmts[1..], text[p + |stmts[0]|..])
  }

  lemma {:induction false} InOrderSkip(stmts: seq<string>, text: string, d: nat)
    requires d <= |text|
    requires InOrder(stmts, text[d..])
    ensures InOrder(stmts, text)
  {
    if stmts != [] {
      var t := text[d..];
      var p :| IsAt(t, p, stmts[0]) && InOrder(stmts[1..], t[p + |stmts[0]|..]);
      assert text[d + p..d + p + |stmts[0]|] == stmts[0];
      assert IsAt(text, d + p, stmts[0]);
      assert t[p + |stmts[0]|..] == text[d + p + |stmts[0]|..];
    }
  }

  /** The extracted statements are pieces of the text, in text order, and no
      two of them overlap. */
  lemma {:induction false} FindInsertsInOrder(text: string)
    ensures InOrder(FindInserts(text), text)
    decreases |text|
  {
    if text != [] {
      match MatchLength(text)
      case Some(n) =>
        FindInsertsInOrder(text[n..]);
        var stmts := FindInserts(text);
        assert stmts[0] == text[..n] && stmts[1..] == FindInserts(text[n..]);
        assert IsAt(text, 0, stmts[0]);
        assert text[0 + |stmts[0]|..] == text[n..];
      case None =>
        FindInsertsInOrder(text[1..]);
        InOrderSkip(FindInserts(text), text, 1);
    }
  }

  function Concat(stmts: seq<string>): string
  {
    if stmts == [] then "" else stmts[0] + Concat(stmts[1..])
  }

  /** A statement of the extracted shape at the start of a text is matched
      exactly. */
  lemma MatchOfStatement(stmt: string, rest: string)
    requires InsertShape(stmt)
    ensures MatchLength(stmt + rest) == Some(|stmt|)
  {
    var s := stmt + rest;
    var after := s[|InsertKeyword|..];
    var k := |stmt| - |InsertKeyword| - 1;
    assert s[..|InsertKeyword|] == stmt[..|InsertKeyword|];
    assert after[k] == ';';
    assert after[..k] == stmt[|InsertKeyword|..|stmt| - 1];
    assert ';' !in after[..k];
    assert FirstIndex(after, ';').Some?;
  }

  /** A script that is the extracted statements one after another gives them
      back, in order. */
  lemma {:induction false} FindInsertsOfConcat(stmts: seq<string>)
    requires forall i :: 0 <= i < |stmts| ==> InsertShape(stmts[i])
    ensures FindInserts(Concat(stmts)) == stmts
  {
    if stmts != [] {
      var text := Concat(stmts);
      MatchOfStatement(stmts[0], Concat(stmts[1..]));
      assert text[|stmts[0]|..] == Concat(stmts[1..]);
      assert text[..|stmts[0]|] == stmts[0];
      FindInsertsOfConcat(stmts[1..]);
      assert [stmts[0]] + stmts[1..] == stmts;
    }
  }

  /** The number of statements the database accepts when `stmts` run in order
      after `history`; `accepts` is its verdict on a statement given the ones
      run before it. */
  function Accepted(accepts: (seq<string>, string) -> bool, history: seq<string>, stmts: seq<string>): (n: nat)
    ensures n <= |stmts|
  {
    if stmts == [] then 0
    else
      var front := stmts[..|stmts| - 1];
      Accepted(accepts, history, front) + (if accepts(history + front, stmts[|stmts| - 1]) then 1 else 0)
  }

  /** A connection cursor: the statements sent so far, and the database's
      verdict on each. */
  class Cursor {
    var executed: seq<string>
    const accepts: (seq<string>, string) -> bool

    constructor (accepts: (seq<string>, string) -> bool)
      ensures executed == [] && this.accepts == accepts
    {
      executed := [];
      this.accepts := accepts;
    }

    /** `cursor.execute(statement)`: false when it raises. */
    method Execute(statement: string) returns (ok: bool)
      modifies this
      ensures executed == old(executed) + [statement]
      ensures ok == accepts(old(executed), statement)
    {
      ok := accepts(executed, statement);
      executed := executed + [statement];
    }
  }

  /** The import loop: every statement sent once, in order; a failure counts as
      an error and the loop goes on. */
  method ImportStatements(cursor: Cursor, stmts: seq<string>) returns (success: nat, error: nat)
    modifies cursor
    ensures cursor.executed == old(cursor.executed) + stmts
    ensures success == Accepted(cursor.accepts, old(cursor.executed), stmts)
    ensures success + error == |stmts|
  {
    success, error := 0, 0;
    for i := 0 to |stmts|
      invariant cursor.executed == old(cursor.executed) + stmts[..i]
      invariant success == Accepted(cursor.accepts, old(cursor.executed), stmts[..i])
      invariant success + error == i
    {
      assert stmts[..i + 1][..i] == stmts[..i];
      var ok := cursor.Execute(stmts[i]);
      if ok {
        success := success + 1;
      } else {
        error := error + 1;
      }
      assert stmts[..i] + [stmts[i]] == stmts[..i + 1];
    }
    assert stmts[..|stmts|] == stmts;
  }

  /** The seed step: the INSERT statements of the script, imported. */
  method Seed(cursor: Cursor, sqlContent: string) returns (success: nat, error: nat)
    modifies cursor
    ensures cursor.executed == old(cursor.executed) + FindInserts(sqlContent)
    ensures success == Accepted(cursor.accepts, old(cursor.executed), FindInserts(sqlContent))
    ensures success + error == |FindInserts(sqlContent)|
  {
    var statements := FindInserts(sqlContent);
    success, error := ImportStatements(cursor, statements);
  }

  /** When the database refuses nothing, every statement counts as a success. */
  lemma {:induction false} AllAccepted(accepts: (seq<string>, string) -> bool, history: seq<string>, stmts: seq<string>)
    requires forall h, s :: accepts(h, s)
    ensures Accepted(accepts, history, stmts) == |stmts|
  {
    if stmts != [] {
      AllAccepted(accepts, history, stmts[..|stmts| - 1]);
    }
  }
}
