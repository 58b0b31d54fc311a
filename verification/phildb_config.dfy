/** `PhilDbConfig`: a value object holding the connection fields. Its
    constructor walks its own parameters in declaration order, collects the
    name of every argument that is empty after `trim`, stores every argument
    trimmed and lower-cased, and throws one message listing all the missing
    names. */
module PhilDbConfig {
  import opened Results
  import opened Php

  /** The fields the constructor assigns (`driver` is a dynamic property). */
  datatype Config = Config(dbname: string, username: string, password: string, hostname: string, driver: string)

  /** The value of `hostname` when it is not passed. */
  const DefaultHostname: string := "localhost"

  /** The value of `driver` when it is not passed. */
  const DefaultDriver: string := "mysql"

  /** The constructor's parameters, in the order reflection reports them. */
  const ParameterNames: seq<string> := ["dbname", "username", "password", "hostname", "driver"]

  const MissingPrefix: string := "One or more required config variables missing: "

  /** What the constructor stores for an argument: `strtolower(trim($arg))`. */
  function Normalise(s: string): string {
    Lower(Trim(s))
  }

  /** The names whose argument is blank, in parameter order. */
  function Failing(names: seq<string>, args: seq<string>): (r: seq<string>)
    requires |names| == |args|
    ensures |r| <= |names|
    ensures |r| == 0 <==> forall i :: 0 <= i < |args| ==> !Blank(args[i])
  {
    if |names| == 0 then []
    else (if Blank(args[0]) then [names[0]] else []) + Failing(names[1..], args[1..])
  }

  /** `"'" . $name . "'"`. */
  function Quote(name: string): string {
    "'" + name + "'"
  }

  /** Each name wrapped in single quotes. */
  function QuoteAll(names: seq<string>): (r: seq<string>)
    ensures |r| == |names|
    ensures forall i :: 0 <= i < |names| ==> r[i] == Quote(names[i])
  {
    if |names| == 0 then [] else [Quote(names[0])] + QuoteAll(names[1..])
  }

  /** `implode($sep, $items)`. */
  function Implode(items: seq<string>, sep: string): (r: string)
    ensures |items| == 0 ==> r == ""
    ensures |items| == 1 ==> r == items[0]
    ensures |items| > 0 ==> items[0] <= r
  {
    if |items| == 0 then ""
    else if |items| == 1 then items[0]
    else items[0] + sep + Implode(items[1..], sep)
  }

  /** The exception message for a non-empty list of missing names. */
  function MissingMessage(missing: seq<string>): string {
    MissingPrefix + Implode(QuoteAll(missing), ", ")
  }

  /** `new PhilDbConfig($dbname, $username, $password, $hostname, $driver)`. */
  function NewConfig(dbname: string, username: string, password: string, hostname: string, driver: string)
    : (r: Result<Config>)
    ensures r.Success? <==> !Blank(dbname) && !Blank(username) && !Blank(password) && !Blank(hostname) && !Blank(driver)
    ensures r.Failure? ==> r.error == MissingMessage(Failing(ParameterNames, [dbname, username, password, hostname, driver]))
  {
    var args := [dbname, username, password, hostname, driver];
    assert args[0] == dbname && args[1] == username && args[2] == password && args[3] == hostname && args[4] == driver;
    var missing := Failing(ParameterNames, args);
    if |missing| > 0 then Failure(MissingMessage(missing))
    else
      Success(Config(Normalise(dbname), Normalise(username), Normalise(password), Normalise(hostname), Normalise(driver)))
  }

  /** `new PhilDbConfig($dbname, $username, $password)`: the host defaults
      to `localhost` and the driver to `mysql`, and the defaults pass the
      check and are stored unchanged. */
  function NewConfigWithDefaults(dbname: string, username: string, password: string): (r: Result<Config>)
    ensures r.Success? <==> !Blank(dbname) && !Blank(username) && !Blank(password)
    ensures r.Success? ==> r.value.hostname == DefaultHostname && r.value.driver == DefaultDriver
    ensures r.Failure? ==> r.error == MissingMessage(Failing(ParameterNames[..3], [dbname, username, password]))
  {
    DefaultsStoredUnchanged();
    HostAndDriverAccepted(dbname, username, password, DefaultHostname, DefaultDriver);
    NewConfig(dbname, username, password, DefaultHostname, DefaultDriver)
  }

  // ---------------------------------------------------------------------------
  // Properties
  // ---------------------------------------------------------------------------

  /** A stored value is in normal form: not blank, free of surrounding trim
      characters and of upper-case letters. */
  predicate IsNormal(s: string) {
    && !Blank(s)
    && !IsTrimChar(s[0]) && !IsTrimChar(s[|s| - 1])
    && forall i :: 0 <= i < |s| ==> !('A' <= s[i] <= 'Z')
  }

  /** The default host and driver are already in normal form. */
  lemma DefaultsStoredUnchanged()
    ensures !Blank(DefaultHostname) && Normalise(DefaultHostname) == DefaultHostname
    ensures !Blank(DefaultDriver) && Normalise(DefaultDriver) == DefaultDriver
    ensures Failing(ParameterNames[3..], [DefaultHostname, DefaultDriver]) == []
  {
    NormalIsFixed(DefaultHostname);
    NormalIsFixed(DefaultDriver);
    var names := ParameterNames[3..];
    var args := [DefaultHostname, DefaultDriver];
    assert args[0] == DefaultHostname && args[1] == DefaultDriver;
  }

  /** A string in normal form is what the constructor stores for it. */
  lemma NormalIsFixed(s: string)
    requires |s| > 0 && s != "0" && !IsTrimChar(s[0]) && !IsTrimChar(s[|s| - 1])
    requires forall i :: 0 <= i < |s| ==> !('A' <= s[i] <= 'Z')
    ensures !Blank(s) && Normalise(s) == s
  {
    TrimOfTrimmed(s);
    LowerOfLowercase(s);
  }

  /** What is stored for an accepted argument is in normal form, and
      normalising it again changes nothing. */
  lemma NormaliseAccepted(s: string)
    requires !Blank(s)
    ensures |Normalise(s)| > 0 && IsNormal(Normalise(s))
    ensures Normalise(Normalise(s)) == Normalise(s)
  {
    BlankNormalised(s);
    NormaliseEdges(s);
    NormaliseTwice(s);
  }

  /** Trimming leaves a non-whitespace character at each end of an accepted
      argument, and lower-casing keeps it so. */
  lemma NormaliseEdges(s: string)
    requires !Blank(s)
    ensures var n := Normalise(s); |n| > 0 && !IsTrimChar(n[0]) && !IsTrimChar(n[|n| - 1])
  {
    var t := Trim(s);
    TrimLeftSpec(s);
    TrimRightSpec(TrimLeft(s));
    assert |t| > 0;
    LowerKeepsTrimChars(t[0]);
    LowerKeepsTrimChars(t[|t| - 1]);
  }

  lemma NormaliseTwice(s: string)
    ensures Normalise(Normalise(s)) == Normalise(s)
  {
    var t := Trim(s);
    TrimLowerCommute(t);
    TrimIdempotent(s);
    LowerIdempotent(t);
  }

  /** On success every field holds the normalised argument, in normal form. */
  lemma NewConfigStores(dbname: string, username: string, password: string, hostname: string, driver: string)
    requires NewConfig(dbname, username, password, hostname, driver).Success?
    ensures var c := NewConfig(dbname, username, password, hostname, driver).value;
            && c.dbname == Normalise(dbname) && IsNormal(c.dbname)
            && c.username == Normalise(username) && IsNormal(c.username)
            && c.password == Normalise(password) && IsNormal(c.password)
            && c.hostname == Normalise(hostname) && IsNormal(c.hostname)
            && c.driver == Normalise(driver) && IsNormal(c.driver)
  {
    NormaliseAccepted(dbname);
    NormaliseAccepted(username);
    NormaliseAccepted(password);
    NormaliseAccepted(hostname);
    NormaliseAccepted(driver);
  }

  /** Building a config again from the fields of one that was accepted gives
      back the same config. */
  lemma NewConfigIdempotent(dbname: string, username: string, password: string, hostname: string, driver: string)
    requires NewConfig(dbname, username, password, hostname, driver).Success?
    ensures var c := NewConfig(dbname, username, password, hostname, driver).value;
            NewConfig(c.dbname, c.username, c.password, c.hostname, c.driver) == Success(c)
  {
    NewConfigStores(dbname, username, password, hostname, driver);
    NormaliseAccepted(dbname);
    NormaliseAccepted(username);
    NormaliseAccepted(password);
    NormaliseAccepted(hostname);
    NormaliseAccepted(driver);
  }

  /** The walk over the parameters is compositional: the missing names of a
      split list are those of the first part followed by those of the second. */
  lemma {:induction false} FailingConcat(n1: seq<string>, n2: seq<string>, a1: seq<string>, a2: seq<string>)
    requires |n1| == |a1| && |n2| == |a2|
    ensures Failing(n1 + n2, a1 + a2) == Failing(n1, a1) + Failing(n2, a2)
    decreases |n1|
  {
    if |n1| == 0 {
      assert n1 + n2 == n2 && a1 + a2 == a2;
    } else {
      assert (n1 + n2)[1..] == n1[1..] + n2;
      assert (a1 + a2)[1..] == a1[1..] + a2;
      FailingConcat(n1[1..], n2, a1[1..], a2);
    }
  }

  /** Accepted values for host and driver never appear in the message:
      only the first three parameters can be reported. */
  lemma HostAndDriverAccepted(dbname: string, username: string, password: string, hostname: string, driver: string)
    requires !Blank(hostname) && !Blank(driver)
    ensures Failing(ParameterNames, [dbname, username, password, hostname, driver])
         == Failing(ParameterNames[..3], [dbname, username, password])
  {
    var tail := [hostname, driver];
    assert tail[0] == hostname && tail[1] == driver;
    assert Failing(ParameterNames[3..], tail) == [];
    FailingConcat(ParameterNames[..3], ParameterNames[3..], [dbname, username, password], tail);
    assert ParameterNames[..3] + ParameterNames[3..] == ParameterNames;
    assert [dbname, username, password] + tail == [dbname, username, password, hostname, driver];
  }

  /** With distinct names, a name is reported exactly when its argument is blank. */
  lemma {:induction false} FailingExactly(names: seq<string>, args: seq<string>, i: nat)
    requires |names| == |args| && i < |names|
    requires forall j, k :: 0 <= j < k < |names| ==> names[j] != names[k]
    ensures names[i] in Failing(names, args) <==> Blank(args[i])
    decreases |names|
  {
    var head := if Blank(args[0]) then [names[0]] else [];
    assert Failing(names, args) == head + Failing(names[1..], args[1..]);
    FailingOnlyNames(names[1..], args[1..]);
    if i > 0 {
      FailingExactly(names[1..], args[1..], i - 1);
      assert names[i] != names[0];
    }
  }

  /** Only names from the list are reported. */
  lemma {:induction false} FailingOnlyNames(names: seq<string>, args: seq<string>)
    requires |names| == |args|
    ensures forall n :: n in Failing(names, args) ==> n in names
    decreases |names|
  {
    if |names| > 0 {
      FailingOnlyNames(names[1..], args[1..]);
    }
  }

  /** `implode` of two non-empty lists joins their texts with the separator. */
  lemma {:induction false} ImplodeConcat(a: seq<string>, b: seq<string>, sep: string)
    requires |a| > 0 && |b| > 0
    ensures Implode(a + b, sep) == Implode(a, sep) + sep + Implode(b, sep)
    decreases |a|
  {
    if |a| == 1 {
      assert (a + b)[1..] == b;
    } else {
      assert (a + b)[1..] == a[1..] + b;
      ImplodeConcat(a[1..], b, sep);
    }
  }

  /** When only the password is blank the message names it alone. */
  lemma OnlyPasswordMissing(dbname: string, username: string, password: string, hostname: string, driver: string)
    requires !Blank(dbname) && !Blank(username) && Blank(password) && !Blank(hostname) && !Blank(driver)
    ensures NewConfig(dbname, username, password, hostname, driver)
         == Failure("One or more required config variables missing: 'password'")
  {
    HostAndDriverAccepted(dbname, username, password, hostname, driver);
    OnlyThirdFailing(ParameterNames[..3], [dbname, username, password]);
    PasswordMessage();
  }

  lemma OnlyThirdFailing(names: seq<string>, args: seq<string>)
    requires |names| == 3 && |args| == 3
    requires !Blank(args[0]) && !Blank(args[1]) && Blank(args[2])
    ensures Failing(names, args) == [names[2]]
  {
    assert names[1..][1..] == [names[2]] && args[1..][1..] == [args[2]];
    assert Failing(names[1..][1..], args[1..][1..]) == [names[2]];
  }

  lemma PasswordMessage()
    ensures ParameterNames[..3][2] == "password"
    ensures MissingMessage(["password"]) == "One or more required config variables missing: 'password'"
  {
    assert Quote("password") == "'password'";
    assert QuoteAll(["password"]) == ["'password'"];
  }

  /** When every argument is blank, all five names are listed, in parameter order. */
  lemma AllMissing(dbname: string, username: string, password: string, hostname: string, driver: string)
    requires Blank(dbname) && Blank(username) && Blank(password) && Blank(hostname) && Blank(driver)
    ensures NewConfig(dbname, username, password, hostname, driver)
         == Failure(MissingPrefix + Quote("dbname") + ", " + Quote("username") + ", " + Quote("password")
                    + ", " + Quote("hostname") + ", " + Quote("driver"))
  {
    var args := [dbname, username, password, hostname, driver];
    AllBlankFailing(ParameterNames, args, 0);
    AllNamesMessage();
  }

  /** The message naming every parameter: each quoted, in parameter order,
      separated by ", ". */
  lemma AllNamesMessage()
    ensures MissingMessage(ParameterNames)
         == MissingPrefix + Quote("dbname") + ", " + Quote("username") + ", " + Quote("password")
            + ", " + Quote("hostname") + ", " + Quote("driver")
  {
    QuoteAllFive("dbname", "username", "password", "hostname", "driver");
    ImplodeFive(Quote("dbname"), Quote("username"), Quote("password"), Quote("hostname"), Quote("driver"), ", ");
  }

  /** `QuoteAll` of five names. Kept as a lemma of its own so that
      `AllNamesMessage` proves it outside its larger context. */
  lemma QuoteAllFive(a: string, b: string, c: string, d: string, e: string)
    ensures QuoteAll([a, b, c, d, e]) == [Quote(a), Quote(b), Quote(c), Quote(d), Quote(e)]
  {
  }

  lemma ImplodeFive(a: string, b: string, c: string, d: string, e: string, sep: string)
    ensures Implode([a, b, c, d, e], sep) == a + sep + b + sep + c + sep + d + sep + e
  {
    var s := [a, b, c, d, e];
    assert s[1..] == [b, c, d, e] && s[1..][1..] == [c, d, e] && s[1..][1..][1..] == [d, e];
    assert [d, e][1..] == [e];
    assert Implode([d, e], sep) == d + sep + e;
    assert Implode([c, d, e], sep) == c + sep + (d + sep + e);
    assert Implode([b, c, d, e], sep) == b + sep + (c + sep + (d + sep + e));
    assert a + sep + (b + sep + (c + sep + (d + sep + e))) == a + sep + b + sep + c + sep + d + sep + e;
  }

  /** Every name of a suffix whose arguments are all blank is reported. */
  lemma {:induction false} AllBlankFailing(names: seq<string>, args: seq<string>, k: nat)
    requires |names| == |args| && k <= |names|
    requires forall i :: k <= i < |args| ==> Blank(args[i])
    ensures Failing(names[k..], args[k..]) == names[k..]
    decreases |names| - k
  {
    if k < |names| {
      AllBlankFailing(names, args, k + 1);
      assert names[k..][1..] == names[k + 1..] && args[k..][1..] == args[k + 1..];
    }
  }

  /** The configuration every connection test starts from,
      `new PhilDbConfig("mysql", "phildb", "phildbpass")`: it is accepted and
      stores its values unchanged, with host `localhost` and driver `mysql`. */
  lemma TestBaseConfig()
    ensures NewConfigWithDefaults("mysql", "phildb", "phildbpass")
         == Success(Config("mysql", "phildb", "phildbpass", DefaultHostname, DefaultDriver))
  {
    NormalIsFixed("mysql");
    NormalIsFixed("phildb");
    NormalIsFixed("phildbpass");
    DefaultsStoredUnchanged();
  }
}
