/** Properties of the `PhilDb` model: what the constructor accepts and
    stores, how `factory` guards its slot and lets the configuration choose
    the driver, and the state `connect` and `prepare` leave behind. */
module PhilDbProperties {
  import opened Results
  import opened Php
  import Dsn
  import opened PhilDb

  // ---------------------------------------------------------------------------
  // Constructor
  // ---------------------------------------------------------------------------

  /** The first pass throws for the first rejected entry, in array order,
      whatever was assigned before it. */
  lemma {:induction false} AssignRejects(config: Pairs, start: map<string, string>, i: nat)
    requires i < |config| && Rejected(config[i])
    requires forall j :: 0 <= j < i ==> !Rejected(config[j])
    ensures Assign(config, start) == Failure(Rejection(config[i]))
    decreases i
  {
    if i > 0 {
      AssignRejects(config[1..], start[config[0].0 := Lower(config[0].1)], i - 1);
    }
  }

  /** The second pass names the first unset field in the order of `names`. */
  lemma {:induction false} FirstUnsetIsFirst(props: map<string, string>, names: seq<string>, j: nat)
    requires j < |names| && (names[j] !in props || Empty(props[names[j]]))
    requires forall l :: 0 <= l < j ==> names[l] in props && !Empty(props[names[l]])
    ensures FirstUnset(props, names) == Some(names[j])
    decreases j
  {
    if j > 0 {
      FirstUnsetIsFirst(props, names[1..], j - 1);
    }
  }

  /** `new PhilDb($config)` throws `Parameter 'K' does not exist` or
      `Parameter 'K' does not have a value` for the first rejected entry in
      array order. */
  lemma ConstructRejects(config: Pairs, i: nat)
    requires i < |config| && Rejected(config[i])
    requires forall j :: 0 <= j < i ==> !Rejected(config[j])
    ensures Construct(config) == Failure(Rejection(config[i]))
    ensures config[i].0 !in Declared ==> Construct(config) == Failure(UnknownParameter(config[i].0))
    ensures config[i].0 in Declared ==> Construct(config) == Failure(MissingValue(config[i].0))
  {
    AssignRejects(config, map[], i);
  }

  /** When every entry is accepted but a required field has no key, the
      constructor throws `Parameter 'X' was not given or set` for the first
      such field in the order hostname, dbname, username, password, driver. */
  lemma ConstructMissing(config: Pairs, j: nat)
    requires AllAccepted(config)
    requires j < |Required| && Required[j] !in Keys(config)
    requires forall l :: 0 <= l < j ==> Required[l] in Keys(config)
    ensures Construct(config) == Failure(NotGiven(Required[j]))
  {
    AssignStores(config, map[]);
    var props := Assign(config, map[]).value;
    SetExactlyWhenGiven(config, Required[j]);
    forall l | 0 <= l < j
      ensures Required[l] in props && !Empty(props[Required[l]])
    {
      SetExactlyWhenGiven(config, Required[l]);
    }
    FirstUnsetIsFirst(props, Required, j);
  }

  /** The lower-cased value given for `k`. */
  function Given(config: Pairs, k: string): string
    requires k in Keys(config)
  {
    Lower(Find(config, k).value)
  }

  /** A configuration whose entries are all accepted and which names all
      five required fields constructs an object holding the lower-cased,
      untrimmed values; a `connection` entry lands in the connection slot. */
  lemma ConstructStores(config: Pairs)
    requires AllAccepted(config)
    requires forall n :: n in Required ==> n in Keys(config)
    ensures Construct(config).Success?
    ensures var db := Construct(config).value;
            && db.hostname == Given(config, "hostname")
            && db.dbname == Given(config, "dbname")
            && db.username == Given(config, "username")
            && db.password == Given(config, "password")
            && db.driver == Given(config, "driver")
            && db.connection == (if "connection" in Keys(config) then Assigned(Given(config, "connection")) else Unconnected)
            && db.options == None && db.statement == None
  {
    var props := Assign(config, map[]).value;
    forall n | n in Required ensures n in props && !Empty(props[n]) {
      SetExactlyWhenGiven(config, n);
    }
    assert FirstUnset(props, Required) == None;
    var db := Construct(config).value;
    StoredValue(config, "hostname");
    StoredValue(config, "dbname");
    StoredValue(config, "username");
    StoredValue(config, "password");
    StoredValue(config, "driver");
    if "connection" in Keys(config) {
      StoredValue(config, "connection");
    } else {
      assert "connection" !in props by { AssignStores(config, map[]); }
    }
  }

  lemma StoredValue(config: Pairs, n: string)
    requires AllAccepted(config) && n in Keys(config)
    ensures n in Assign(config, map[]).value
    ensures Assign(config, map[]).value[n] == Given(config, n)
  {
    AssignStores(config, map[]);
  }

  /** Every object the constructor builds has no open connection; it counts
      as connected only when the array assigned `connection`. */
  lemma ConstructedConnection(config: Pairs)
    requires Construct(config).Success?
    ensures !Construct(config).value.connection.Pdo?
    ensures Connected(Construct(config).value.connection) <==> "connection" in Keys(config)
  {
    ConstructStores(config);
    if "connection" in Keys(config) {
      var i := FindIsEntry(config, "connection");
      NotBlankStoredNotEmpty(config[i].1);
    }
  }

  /** A declared key with a plain lower-case value is accepted and stored as given. */
  lemma PlainEntry(k: string, v: string)
    requires k in Declared
    requires |v| > 0 && !IsTrimChar(v[0]) && !IsTrimChar(v[|v| - 1]) && v != "0"
    requires forall i :: 0 <= i < |v| ==> !('A' <= v[i] <= 'Z')
    ensures !Rejected((k, v)) && Lower(v) == v
  {
    NotBlankPlain(v);
    LowerOfLowercase(v);
  }

  /** The configuration of `PhilDbConstructTest::testGoodConfig`. */
  const GoodConfig: Pairs :=
    [("hostname", "hostname"), ("dbname", "dbname"), ("username", "username"),
     ("password", "password"), ("driver", "driver")]

  lemma GoodConfigAccepted()
    ensures AllAccepted(GoodConfig)
    ensures forall i :: 0 <= i < |GoodConfig| ==> Lower(GoodConfig[i].1) == GoodConfig[i].1
  {
    forall i | 0 <= i < |GoodConfig| ensures !Rejected(GoodConfig[i]) && Lower(GoodConfig[i].1) == GoodConfig[i].1 {
      if i == 0 { PlainEntry("hostname", "hostname"); }
      else if i == 1 { PlainEntry("dbname", "dbname"); }
      else if i == 2 { PlainEntry("username", "username"); }
      else if i == 3 { PlainEntry("password", "password"); }
      else { PlainEntry("driver", "driver"); }
    }
  }

  lemma GoodConfigKeys()
    ensures UniqueKeys(GoodConfig)
    ensures forall n :: n in Required ==> n in Keys(GoodConfig)
    ensures "connection" !in Keys(GoodConfig)
  {
    assert GoodConfig[0].0 == "hostname" && GoodConfig[1].0 == "dbname" && GoodConfig[2].0 == "username";
    assert GoodConfig[3].0 == "password" && GoodConfig[4].0 == "driver";
  }

  lemma GoodConfigGiven(i: nat)
    requires i < 5
    ensures GoodConfig[i].0 in Keys(GoodConfig) && Given(GoodConfig, GoodConfig[i].0) == GoodConfig[i].1
  {
    GoodConfigAccepted();
    GoodConfigKeys();
    FindUnique(GoodConfig, i);
  }

  /** The configuration of `PhilDbConstructTest::testGoodConfig` constructs
      an object holding exactly the values given. */
  lemma ConstructGoodConfig()
    ensures Construct(GoodConfig)
         == Success(Db("hostname", "dbname", "username", "password", "driver", Unconnected, None, None))
  {
    GoodConfigAccepted();
    GoodConfigKeys();
    ConstructStores(GoodConfig);
    GoodConfigGiven(0);
    GoodConfigGiven(1);
    GoodConfigGiven(2);
    GoodConfigGiven(3);
    GoodConfigGiven(4);
  }

  // ---------------------------------------------------------------------------
  // factory
  // ---------------------------------------------------------------------------

  /** The array `factory` hands to the constructor once the driver gate
      passes: the `driver` entry first, holding the configuration's own
      driver if it has one and the lower-cased argument otherwise, then the
      other entries of the configuration in their order. */
  function Merged(config: Pairs, driver: string): Pairs {
    [("driver", Find(config, "driver").GetOr(Lower(driver)))] + Without(config, "driver")
  }

  /** Past the slot and driver checks, `factory` constructs from `Merged`. */
  lemma FactoryConstructs(config: Pairs, driver: string, available: seq<string>)
    requires UniqueKeys(config)
    requires Lower(driver) in available && Lower(driver) in SupportedDrivers
    ensures Factory(None, config, driver, available).result == Construct(Merged(config, driver))
  {
    MergeOntoSingle("driver", Lower(driver), config);
  }

  /** The entry `factory` puts first is accepted whenever the configuration's entries are. */
  lemma MergedHeadAccepted(config: Pairs, driver: string)
    requires AllAccepted(config) && Lower(driver) in SupportedDrivers
    ensures !Rejected(Merged(config, driver)[0])
  {
    if "driver" in Keys(config) {
      var i := FindIsEntry(config, "driver");
      assert !Rejected(config[i]);
    } else {
      assert Lower(driver) == "mysql";
      NotBlankPlain("mysql");
    }
  }

  lemma AcceptedCons(e: (string, string), rest: Pairs)
    ensures AllAccepted([e] + rest) <==> !Rejected(e) && AllAccepted(rest)
  {
    var a := [e] + rest;
    if !Rejected(e) && AllAccepted(rest) {
      forall i | 1 <= i < |a| ensures !Rejected(a[i]) {
        assert !Rejected(rest[i - 1]);
        assert a[i] == rest[i - 1];
      }
    }
    if AllAccepted(a) {
      assert a[0] == e;
      forall i | 0 <= i < |rest| ensures !Rejected(rest[i]) {
        assert !Rejected(a[i + 1]);
        assert a[i + 1] == rest[i];
      }
    }
  }

  lemma WithoutAccepted(config: Pairs, k: string)
    requires AllAccepted(config)
    ensures AllAccepted(Without(config, k))
  {
    var w := Without(config, k);
    forall i | 0 <= i < |w| ensures !Rejected(w[i]) {
      var j := WithoutEntry(config, k, i);
      assert !Rejected(config[j]);
      assert w[i] == config[j];
    }
  }

  lemma MergedAcceptedFromConfig(config: Pairs, driver: string)
    requires AllAccepted(config) && Lower(driver) in SupportedDrivers
    ensures AllAccepted(Merged(config, driver))
  {
    MergedHeadAccepted(config, driver);
    WithoutAccepted(config, "driver");
    AcceptedCons(Merged(config, driver)[0], Without(config, "driver"));
  }

  lemma ConfigAcceptedFromMerged(config: Pairs, driver: string)
    requires UniqueKeys(config) && AllAccepted(Merged(config, driver))
    ensures AllAccepted(config)
  {
    var m := Merged(config, driver);
    var rest := Without(config, "driver");
    AcceptedCons(m[0], rest);
    forall i | 0 <= i < |config| ensures !Rejected(config[i]) {
      if config[i].0 == "driver" {
        FindUnique(config, i);
        assert m[0] == config[i];
      } else {
        var j := WithoutKeeps(config, "driver", i);
        assert !Rejected(rest[j]);
        assert rest[j] == config[i];
      }
    }
  }

  lemma MergedAccepted(config: Pairs, driver: string)
    requires UniqueKeys(config) && Lower(driver) in SupportedDrivers
    ensures AllAccepted(Merged(config, driver)) <==> AllAccepted(config)
  {
    if AllAccepted(config) {
      MergedAcceptedFromConfig(config, driver);
    }
    if AllAccepted(Merged(config, driver)) {
      ConfigAcceptedFromMerged(config, driver);
    }
  }

  lemma MergedFind(config: Pairs, driver: string, n: string)
    ensures n != "driver" ==> Find(Merged(config, driver), n) == Find(config, n)
    ensures Find(Merged(config, driver), "driver") == Some(Find(config, "driver").GetOr(Lower(driver)))
    ensures Keys(Merged(config, driver)) == Keys(config) + {"driver"}
  {
    var rest := Without(config, "driver");
    KeysCons(("driver", Find(config, "driver").GetOr(Lower(driver))), rest);
    if n != "driver" {
      FindWithout(config, "driver", n);
    }
  }

  /** Once the slot is free and the argument names an available, supported
      driver, `factory` succeeds exactly when every entry of the
      configuration is accepted and it names hostname, dbname, username and
      password. The instance then holds the configuration's values, and its
      driver is the configuration's own `driver` entry when there is one;
      the argument only fills in when there is none. */
  lemma FactoryOutcome(config: Pairs, driver: string, available: seq<string>)
    requires UniqueKeys(config)
    requires Lower(driver) in available && Lower(driver) in SupportedDrivers
    ensures Factory(None, config, driver, available).result.Success?
        <==> (&& AllAccepted(config)
              && "hostname" in Keys(config) && "dbname" in Keys(config)
              && "username" in Keys(config) && "password" in Keys(config))
    ensures var r := Factory(None, config, driver, available);
            r.result.Success? ==>
              && r.state == Some(r.result.value)
              && r.result.value.hostname == Given(config, "hostname")
              && r.result.value.dbname == Given(config, "dbname")
              && r.result.value.username == Given(config, "username")
              && r.result.value.password == Given(config, "password")
              && r.result.value.driver == Lower(Find(config, "driver").GetOr(Lower(driver)))
  {
    var m := Merged(config, driver);
    FactoryConstructs(config, driver, available);
    MergedAccepted(config, driver);
    MergedFind(config, driver, "hostname");
    MergedFind(config, driver, "dbname");
    MergedFind(config, driver, "username");
    MergedFind(config, driver, "password");
    if Construct(m).Success? {
      ConstructStores(m);
    }
  }

  /** The driver gate looks only at the argument: a configuration whose own
      `driver` is not supported (`sqlite`, say) still gets an instance
      through a supported argument (the default `mysql`), and that instance
      uses the configuration's unsupported driver. */
  lemma FactoryGateBypassedByConfigDriver(config: Pairs, driver: string, available: seq<string>, own: string)
    requires UniqueKeys(config) && AllAccepted(config)
    requires "hostname" in Keys(config) && "dbname" in Keys(config)
    requires "username" in Keys(config) && "password" in Keys(config)
    requires Find(config, "driver") == Some(own) && Lower(own) !in SupportedDrivers
    requires Lower(driver) in available && Lower(driver) in SupportedDrivers
    ensures Factory(None, config, driver, available).result.Success?
    ensures Factory(None, config, driver, available).result.value.driver == Lower(own)
    ensures Factory(None, config, driver, available).result.value.driver !in SupportedDrivers
  {
    FactoryOutcome(config, driver, available);
  }

  /** Because `array_merge` keeps `driver` in front, a blank `driver` in the
      configuration is reported before any other problem, wherever it sits. */
  lemma FactoryBlankDriverFirst(config: Pairs, driver: string, available: seq<string>)
    requires UniqueKeys(config)
    requires Lower(driver) in available && Lower(driver) in SupportedDrivers
    requires "driver" in Keys(config) && Blank(Find(config, "driver").value)
    ensures Factory(None, config, driver, available) == Step(None, Failure(MissingValue("driver")))
  {
    FactoryConstructs(config, driver, available);
    ConstructRejects(Merged(config, driver), 0);
  }

  /** A second `factory` call before the slot is cleared throws
      `Instance already exists` and keeps the first instance. */
  lemma FactoryTwice(config: Pairs, driver: string, available: seq<string>,
                     config': Pairs, driver': string, available': seq<string>)
    requires Factory(None, config, driver, available).result.Success?
    ensures var first := Factory(None, config, driver, available);
            Factory(first.state, config', driver', available') == Step(first.state, Failure(InstanceExists))
  {
  }

  /** `factory($config)` without a driver argument and without a `driver`
      entry: the gate reduces to `mysql` being available, a success
      depends only on the configuration, and the instance uses `mysql`. */
  lemma FactoryDefaultOutcome(config: Pairs, available: seq<string>)
    requires UniqueKeys(config) && "driver" !in Keys(config)
    ensures DefaultDriver !in available ==> FactoryDefault(None, config, available) == Step(None, Failure(InvalidDriver))
    ensures DefaultDriver in available ==>
              (FactoryDefault(None, config, available).result.Success?
               <==> (&& AllAccepted(config)
                     && "hostname" in Keys(config) && "dbname" in Keys(config)
                     && "username" in Keys(config) && "password" in Keys(config)))
    ensures FactoryDefault(None, config, available).result.Success? ==>
              FactoryDefault(None, config, available).result.value.driver == DefaultDriver
  {
    DefaultDriverSupported();
    if DefaultDriver in available {
      FactoryOutcome(config, DefaultDriver, available);
    }
  }

  // ---------------------------------------------------------------------------
  // connect and prepare
  // ---------------------------------------------------------------------------

  /** A second `connect` after a successful one throws `Connection already
      exists` and changes nothing, whatever the options and the driver. */
  lemma ConnectTwice(db: Db, options: Pairs, open: (string, string, string) -> Attempt,
                     options': Pairs, open': (string, string, string) -> Attempt)
    requires Connect(db, options, open).result.Success?
    ensures var first := Connect(db, options, open);
            Connect(first.state, options', open') == Step(first.state, Failure(ConnectionExists))
  {
  }

  /** A refused connection leaves nothing behind that matters to the next
      attempt: the options it wrote are overwritten again, and the
      connection is still unset, so a retry is exactly a first try. */
  lemma ConnectRetry(db: Db, options: Pairs, open: (string, string, string) -> Attempt,
                     options': Pairs, open': (string, string, string) -> Attempt)
    requires !Connected(db.connection)
    requires Connect(db, options, open).result.Failure?
    ensures Connect(db, options, open).state.options == Some(options)
    ensures Connect(Connect(db, options, open).state, options', open') == Connect(db, options', open')
  {
    var first := Connect(db, options, open);
    assert first.state == db.(options := Some(options));
  }

  /** The `PhilDbConnectTest::testDbnameNotFound` scenario: the server
      answers code 1049 and the message names the database. */
  lemma ConnectDbnameNotFound(db: Db, options: Pairs, open: (string, string, string) -> Attempt)
    requires db.dbname == "baddatabase" && db.connection == Unconnected
    requires open(Dsn.BuildDsn(db.driver, db.dbname, db.hostname, options), db.username, db.password).Refused?
    requires open(Dsn.BuildDsn(db.driver, db.dbname, db.hostname, options), db.username, db.password).code == 1049
    ensures Connect(db, options, open).result == Failure("Database 'baddatabase' not found")
    ensures Connect(db, options, open).state.connection == Unconnected
  {
  }

  /** An object built from an array with a `connection` entry can never
      connect; one built without it is unconnected, so `connect` records the
      options and hands the DSN to the driver. */
  lemma ConnectAfterConstruct(config: Pairs, options: Pairs, open: (string, string, string) -> Attempt)
    requires Construct(config).Success?
    ensures var db := Construct(config).value;
            "connection" in Keys(config) <==> Connect(db, options, open) == Step(db, Failure(ConnectionExists))
    ensures var db := Construct(config).value;
            "connection" !in Keys(config) ==> !Connected(db.connection) && Connect(db, options, open).state.options == Some(options)
  {
    ConstructedConnection(config);
    var db := Construct(config).value;
    if "connection" !in Keys(config) {
      var r := Connect(db, options, open);
      assert r.state.options == Some(options);
      assert db.options == None by { ConstructStores(config); }
    }
  }

  /** The driver's own message reaches the caller only for codes other than
      2002 and 1049; for those two the message names the host or the
      database whatever the driver said. */
  lemma ConnectErrorUsesDriverMessage(db: Db, code: int, m1: string, m2: string)
    ensures code == 2002 || code == 1049 ==> ConnectError(db, code, m1) == ConnectError(db, code, m2)
    ensures code != 2002 && code != 1049 ==> (ConnectError(db, code, m1) == ConnectError(db, code, m2) <==> m1 == m2)
  {
    if code != 2002 && code != 1049 && ConnectError(db, code, m1) == ConnectError(db, code, m2) {
      var prefix := "Connetion failed: ";
      assert m1 == (prefix + m1)[|prefix|..];
      assert m2 == (prefix + m2)[|prefix|..];
    }
  }

  /** `prepare` touches only the last statement: the connection, the
      connection fields and the options stay as they were, and a statement
      that compiled replaces the previous one even when executing it throws. */
  lemma PrepareReplacesStatementOnly(db: Db, sql: string, params: Pairs, run: (string, Pairs) -> Compilation)
    requires db.connection.Pdo?
    ensures var r := Prepare(db, sql, params, run);
            && r.state == db.(statement := r.state.statement)
            && (r.state.statement != db.statement ==> run(sql, params).Compiled?)
            && (run(sql, params).Compiled? ==> r.state.statement == Some(run(sql, params).statement))
            && (r.result.Failure? ==> r.result.error[..|PreparePrefix|] == PreparePrefix)
  {
  }
}
