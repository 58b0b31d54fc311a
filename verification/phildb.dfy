/** `PhilDb`: the PDO wrapper object. Its array constructor validates the
    keys and values it is given, the static `factory` guards a single
    instance slot and the driver choice, `connect` opens at most one
    connection and maps driver errors to messages, and `prepare` records the
    last statement. PDO itself is abstract: the drivers available at run
    time are a parameter, and opening a connection or preparing a statement
    are functions supplied by the caller. */
module PhilDb {
  import opened Results
  import opened Php
  import Dsn

  // ---------------------------------------------------------------------------
  // Data model
  // ---------------------------------------------------------------------------

  /** Every property the class declares; `property_exists` admits exactly these keys. */
  const Declared: set<string> :=
    {"hostname", "dbname", "username", "password", "driver",
     "supportedDrivers", "instance", "connection", "options", "statement"}

  /** The fields the constructor insists on, in the order it checks them. */
  const Required: seq<string> := ["hostname", "dbname", "username", "password", "driver"]

  /** The drivers this wrapper supports. */
  const SupportedDrivers: seq<string> := ["mysql"]

  /** The driver `factory` uses when none is passed. */
  const DefaultDriver: string := "mysql"

  /** The `connection` property: `false` until set, a string if the
      configuration array assigned one, or an open PDO connection. */
  datatype Connection = Unconnected | Assigned(text: string) | Pdo(handle: nat)

  /** `$this->connection != false`: PHP truthiness of the property. */
  predicate Connected(c: Connection) {
    match c
    case Unconnected => false
    case Assigned(text) => !Empty(text)
    case Pdo(_) => true
  }

  /** A `PhilDb` object: the five connection fields, the connection, the DSN
      options of the last `connect` and the last prepared statement. */
  datatype Db = Db(
    hostname: string,
    dbname: string,
    username: string,
    password: string,
    driver: string,
    connection: Connection,
    options: Option<Pairs>,
    statement: Option<nat>)

  // ---------------------------------------------------------------------------
  // Messages of PhilDbException
  // ---------------------------------------------------------------------------

  function UnknownParameter(key: string): string {
    "Parameter '" + key + "' does not exist"
  }

  function MissingValue(key: string): string {
    "Parameter '" + key + "' does not have a value"
  }

  function NotGiven(name: string): string {
    "Parameter '" + name + "' was not given or set"
  }

  const InstanceExists: string := "Instance already exists"
  const InvalidDriver: string := "Invalid database driver"
  const UnsupportedDriver: string := "Unsupported database driver"
  const ConnectionExists: string := "Connection already exists"
  const PreparePrefix: string := "Prepare Error: "

  // ---------------------------------------------------------------------------
  // Constructor
  // ---------------------------------------------------------------------------

  /** An entry the first pass throws on: an undeclared key, or a value that is empty after `trim`. */
  predicate Rejected(entry: (string, string)) {
    entry.0 !in Declared || Blank(entry.1)
  }

  /** The message the first pass throws for a rejected entry; the key test comes first. */
  function Rejection(entry: (string, string)): string {
    if entry.0 !in Declared then UnknownParameter(entry.0) else MissingValue(entry.0)
  }

  /** No entry of the array is rejected. */
  predicate AllAccepted(config: Pairs) {
    forall i :: 0 <= i < |config| ==> !Rejected(config[i])
  }

  /** The first pass: walks the array in order, throws on the first rejected
      entry, and otherwise assigns `strtolower(value)` to the property named
      by the key (later entries overwrite earlier ones). */
  function Assign(config: Pairs, props: map<string, string>): (r: Result<map<string, string>>)
    ensures r.Success? <==> AllAccepted(config)
    decreases |config|
  {
    if |config| == 0 then Success(props)
    else if Rejected(config[0]) then Failure(Rejection(config[0]))
    else Assign(config[1..], props[config[0].0 := Lower(config[0].1)])
  }

  /** The second pass: the first of `names` whose property is unset or PHP-empty. */
  function FirstUnset(props: map<string, string>, names: seq<string>): (r: Option<string>)
    ensures r.None? <==> forall n :: n in names ==> n in props && !Empty(props[n])
    ensures r.Some? ==> r.value in names
  {
    if |names| == 0 then None
    else if names[0] !in props || Empty(props[names[0]]) then Some(names[0])
    else FirstUnset(props, names[1..])
  }

  /** `props` is what the first pass leaves after starting from `start`: the
      keys of `config` are added and each holds the lower-cased value given
      for it; other properties keep their values. */
  ghost predicate StoresGiven(config: Pairs, start: map<string, string>, props: map<string, string>) {
    && props.Keys == start.Keys + Keys(config)
    && forall k :: k in props ==>
         props[k] == if k in Keys(config) then Lower(Find(config, k).value) else start[k]
  }

  lemma {:induction false} AssignStores(config: Pairs, start: map<string, string>)
    requires AllAccepted(config)
    ensures Assign(config, start).Success?
    ensures StoresGiven(config, start, Assign(config, start).value)
    decreases |config|
  {
    if |config| > 0 {
      var (k, v) := config[0];
      var tail := config[1..];
      assert config == [config[0]] + tail;
      KeysCons(config[0], tail);
      assert AllAccepted(tail);
      AssignStores(tail, start[k := Lower(v)]);
      var props := Assign(config, start).value;
      forall n | n in props
        ensures props[n] == if n in Keys(config) then Lower(Find(config, n).value) else start[n]
      {
        if n !in Keys(tail) && n == k {
          assert Find(config, n) == Some(v);
        }
      }
    }
  }

  /** After an accepted first pass from nothing, a required field is set and
      truthy exactly when the array has a key for it. */
  lemma SetExactlyWhenGiven(config: Pairs, n: string)
    requires AllAccepted(config)
    ensures var props := Assign(config, map[]).value;
            n in props && !Empty(props[n]) <==> n in Keys(config)
  {
    AssignStores(config, map[]);
    if n in Keys(config) {
      var i := FindIsEntry(config, n);
      NotBlankStoredNotEmpty(config[i].1);
    }
  }

  /** With an accepted first pass, the second pass finds nothing exactly when
      the array names all five required fields. */
  lemma RequiredSetIffGiven(config: Pairs)
    ensures AllAccepted(config) ==>
              (FirstUnset(Assign(config, map[]).value, Required).None?
               <==> forall n :: n in Required ==> n in Keys(config))
  {
    if AllAccepted(config) {
      forall n | n in Required
        ensures (n in Assign(config, map[]).value && !Empty(Assign(config, map[]).value[n])) <==> n in Keys(config)
      {
        SetExactlyWhenGiven(config, n);
      }
    }
  }

  /** `new PhilDb($config)`: it succeeds if and only if no entry is rejected
      and all five required fields are given. */
  function Construct(config: Pairs): (r: Result<Db>)
    ensures r.Success? <==> AllAccepted(config) && forall n :: n in Required ==> n in Keys(config)
  {
    RequiredSetIffGiven(config);
    match Assign(config, map[])
    case Failure(e) => Failure(e)
    case Success(props) =>
      match FirstUnset(props, Required)
      case Some(name) => Failure(NotGiven(name))
      case None =>
        Success(Db(
          props["hostname"], props["dbname"], props["username"], props["password"], props["driver"],
          if "connection" in props then Assigned(props["connection"]) else Unconnected,
          None, None))
  }

  // ---------------------------------------------------------------------------
  // factory
  // ---------------------------------------------------------------------------

  /** `PhilDb::factory($config, $driver)` against the static slot `instance`
      and the drivers PDO reports as available. The lower-cased argument is
      merged in front of the configuration, whose own `driver` entry wins. */
  function Factory(instance: Option<Db>, config: Pairs, driver: string, available: seq<string>)
    : (r: Step<Option<Db>, Db>)
    ensures instance.Some? ==> r == Step(instance, Failure(InstanceExists))
    ensures instance.None? && Lower(driver) !in available ==> r == Step(instance, Failure(InvalidDriver))
    ensures instance.None? && Lower(driver) in available && Lower(driver) !in SupportedDrivers
            ==> r == Step(instance, Failure(UnsupportedDriver))
    ensures r.result.Success? ==> instance.None? && r.state == Some(r.result.value)
    ensures r.result.Failure? ==> r.state == instance
  {
    if instance.Some? then Step(instance, Failure(InstanceExists))
    else
      var d := Lower(driver);
      if d !in available then Step(instance, Failure(InvalidDriver))
      else if d !in SupportedDrivers then Step(instance, Failure(UnsupportedDriver))
      else
        match Construct(Merge([("driver", d)], config))
        case Success(db) => Step(Some(db), Success(db))
        case Failure(e) => Step(instance, Failure(e))
  }

  /** The default driver is already lower case and is the supported one. */
  lemma DefaultDriverSupported()
    ensures Lower(DefaultDriver) == DefaultDriver && DefaultDriver in SupportedDrivers
  {
    LowerOfLowercase(DefaultDriver);
  }

  /** `PhilDb::factory($config)`: the driver argument left at `mysql`, so the
      driver gate reduces to `mysql` being available, after which the outcome
      is that of constructing from the configuration with `mysql` merged in. */
  function FactoryDefault(instance: Option<Db>, config: Pairs, available: seq<string>): (r: Step<Option<Db>, Db>)
    ensures instance.Some? ==> r == Step(instance, Failure(InstanceExists))
    ensures instance.None? && DefaultDriver !in available ==> r == Step(instance, Failure(InvalidDriver))
    ensures instance.None? && DefaultDriver in available
            ==> (r.result.Success? <==> Construct(Merge([("driver", DefaultDriver)], config)).Success?)
    ensures r.result.Success? ==> instance.None? && DefaultDriver in available && r.state == Some(r.result.value)
    ensures r.result.Failure? ==> r.state == instance
  {
    DefaultDriverSupported();
    Factory(instance, config, DefaultDriver, available)
  }

  // ---------------------------------------------------------------------------
  // connect
  // ---------------------------------------------------------------------------

  /** What `new PDO($dsn, $username, $password)` does: open a connection or
      throw a `PDOException` with a code and a message. */
  datatype Attempt = Opened(handle: nat) | Refused(code: int, message: string)

  /** The message `connect` throws for a refused connection: 2002 names the
      host, 1049 the database, anything else passes the driver message on. */
  function ConnectError(db: Db, code: int, message: string): (r: string)
    ensures code == 2002 ==> r == "Failed connecting to host '" + db.hostname + "'"
    ensures code == 1049 ==> r == "Database '" + db.dbname + "' not found"
    ensures code != 2002 && code != 1049 ==> r == "Connetion failed: " + message
  {
    if code == 2002 then "Failed connecting to host '" + db.hostname + "'"
    else if code == 1049 then "Database '" + db.dbname + "' not found"
    else "Connetion failed: " + message
  }

  /** `$db->connect($options)`, with `open` standing for the PDO constructor. */
  function Connect(db: Db, options: Pairs, open: (string, string, string) -> Attempt): (r: Step<Db, nat>)
    ensures Connected(db.connection) ==> r == Step(db, Failure(ConnectionExists))
    ensures !Connected(db.connection) ==>
      var attempt := open(Dsn.BuildDsn(db.driver, db.dbname, db.hostname, options), db.username, db.password);
      && r.state.options == Some(options)
      && (attempt.Opened? ==> r == Step(r.state, Success(attempt.handle)) && r.state.connection == Pdo(attempt.handle))
      && (attempt.Refused? ==> r.result == Failure(ConnectError(db, attempt.code, attempt.message))
                               && r.state.connection == db.connection)
    ensures r.state == db.(options := r.state.options, connection := r.state.connection)
  {
    if Connected(db.connection) then Step(db, Failure(ConnectionExists))
    else
      var db' := db.(options := Some(options));
      match open(Dsn.BuildDsn(db.driver, db.dbname, db.hostname, options), db.username, db.password)
      case Opened(h) => Step(db'.(connection := Pdo(h)), Success(h))
      case Refused(code, message) => Step(db', Failure(ConnectError(db, code, message)))
  }

  // ---------------------------------------------------------------------------
  // prepare
  // ---------------------------------------------------------------------------

  /** What PDO does with `prepare($sql)` followed by binding and executing:
      the statement fails to compile, or it compiles and its execution
      succeeds (`failure` is `None`) or throws with a message. */
  datatype Compilation = CompileFailed(message: string) | Compiled(statement: nat, failure: Option<string>)

  /** `$db->prepare($sql, $params)` on an open connection, with `run` standing for PDO. */
  function Prepare(db: Db, sql: string, params: Pairs, run: (string, Pairs) -> Compilation): (r: Step<Db, nat>)
    requires db.connection.Pdo?
    ensures run(sql, params).CompileFailed? ==> r == Step(db, Failure(PreparePrefix + run(sql, params).message))
    ensures run(sql, params).Compiled? ==> r.state == db.(statement := Some(run(sql, params).statement))
    ensures r.result.Success? <==> run(sql, params).Compiled? && run(sql, params).failure.None?
    ensures r.result.Success? ==> r.result.value == run(sql, params).statement
    ensures run(sql, params).Compiled? && run(sql, params).failure.Some?
            ==> r.result == Failure(PreparePrefix + run(sql, params).failure.value)
  {
    match run(sql, params)
    case CompileFailed(message) => Step(db, Failure(PreparePrefix + message))
    case Compiled(s, failure) =>
      var db' := db.(statement := Some(s));
      match failure
      case None => Step(db', Success(s))
      case Some(message) => Step(db', Failure(PreparePrefix + message))
  }
}
