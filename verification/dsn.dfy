/** The PDO data source name `PhilDb::buildDsn` assembles, and how it splits
    back into its `;`-separated segments. */
module Dsn {
  import opened Php

  /** The `key=value;` text of one option. */
  function Entry(key: string, value: string): string {
    key + "=" + value + ";"
  }

  /** The `key=value;` tail contributed by the extra DSN options, in array order. */
  function OptionsText(options: Pairs): (r: string)
    ensures |r| == 0 <==> |options| == 0
    ensures |r| > 0 ==> r[|r| - 1] == ';'
  {
    if |options| == 0 then ""
    else Entry(options[0].0, options[0].1) + OptionsText(options[1..])
  }

  /** The fixed head of every DSN: driver, database name and host. */
  function Head(driver: string, dbname: string, hostname: string): string {
    driver + ":dbname=" + dbname + ";" + "host=" + hostname + ";"
  }

  /** `buildDsn()`: the head followed by one `key=value;` per option. */
  function BuildDsn(driver: string, dbname: string, hostname: string, options: Pairs): (r: string)
    ensures |r| > 0 && r[|r| - 1] == ';'
  {
    Head(driver, dbname, hostname) + OptionsText(options)
  }

  /** Options serialise entry by entry: the text for `a + b` is the text for
      `a` followed by the text for `b`. */
  lemma {:induction false} OptionsTextConcat(a: Pairs, b: Pairs)
    ensures OptionsText(a + b) == OptionsText(a) + OptionsText(b)
    decreases |a|
  {
    if |a| == 0 {
      assert a + b == b;
    } else {
      assert (a + b)[1..] == a[1..] + b;
      OptionsTextConcat(a[1..], b);
    }
  }

  /** With no options the DSN is exactly the head. */
  lemma BuildDsnNoOptions(driver: string, dbname: string, hostname: string)
    ensures BuildDsn(driver, dbname, hostname, []) == Head(driver, dbname, hostname)
  {
  }

  /** Each further option appends exactly its own `key=value;`. */
  lemma BuildDsnAppend(driver: string, dbname: string, hostname: string, options: Pairs, key: string, value: string)
    ensures BuildDsn(driver, dbname, hostname, options + [(key, value)])
         == BuildDsn(driver, dbname, hostname, options) + Entry(key, value)
  {
    var entry := [(key, value)];
    OptionsTextConcat(options, entry);
    assert entry[1..] == [];
    assert OptionsText(entry) == Entry(key, value);
  }

  // ---------------------------------------------------------------------------
  // Reading a DSN back
  // ---------------------------------------------------------------------------

  /** The pieces of `s` between `;` separators (PHP `explode(";", s)`). */
  function Segments(s: string): (r: seq<string>)
    ensures |r| >= 1
  {
    if |s| == 0 then [""]
    else
      var rest := Segments(s[1..]);
      if s[0] == ';' then [""] + rest else [[s[0]] + rest[0]] + rest[1..]
  }

  /** A piece without `;` followed by `;` splits off as one segment. */
  lemma {:induction false} SegmentsOfPiece(x: string, y: string)
    requires ';' !in x
    ensures Segments(x + ";" + y) == [x] + Segments(y)
    decreases |x|
  {
    if |x| == 0 {
      assert x + ";" + y == [';'] + y;
      assert ([';'] + y)[1..] == y;
    } else {
      assert (x + ";" + y)[1..] == x[1..] + ";" + y;
      SegmentsOfPiece(x[1..], y);
      assert [x[0]] + x[1..] == x;
    }
  }

  /** `key=value` for each option: what the driver should read back. */
  function OptionSegments(options: Pairs): seq<string> {
    seq(|options|, i requires 0 <= i < |options| => options[i].0 + "=" + options[i].1)
  }

  /** No key or value of the options contains a `;`. */
  predicate PlainOptions(options: Pairs) {
    forall i :: 0 <= i < |options| ==> ';' !in options[i].0 && ';' !in options[i].1
  }

  lemma {:induction false} OptionsTextSegments(options: Pairs)
    requires PlainOptions(options)
    ensures Segments(OptionsText(options)) == OptionSegments(options) + [""]
    decreases |options|
  {
    if |options| > 0 {
      var piece := options[0].0 + "=" + options[0].1;
      assert ';' !in piece;
      assert OptionsText(options) == piece + ";" + OptionsText(options[1..]);
      SegmentsOfPiece(piece, OptionsText(options[1..]));
      assert PlainOptions(options[1..]);
      OptionsTextSegments(options[1..]);
      assert OptionSegments(options) == [piece] + OptionSegments(options[1..]);
    }
  }

  /** Round trip: when no component contains `;`, splitting the DSN on `;`
      gives back the driver/database segment, the host segment and one
      `key=value` segment per option, in order, then the empty piece after
      the final `;`. */
  lemma DsnSegments(driver: string, dbname: string, hostname: string, options: Pairs)
    requires ';' !in driver && ';' !in dbname && ';' !in hostname
    requires PlainOptions(options)
    ensures Segments(BuildDsn(driver, dbname, hostname, options))
         == [driver + ":dbname=" + dbname, "host=" + hostname] + OptionSegments(options) + [""]
  {
    var first := driver + ":dbname=" + dbname;
    var second := "host=" + hostname;
    var tail := OptionsText(options);
    assert BuildDsn(driver, dbname, hostname, options) == first + ";" + (second + ";" + tail);
    SegmentsOfPiece(first, second + ";" + tail);
    SegmentsOfPiece(second, tail);
    OptionsTextSegments(options);
  }

  /** Nothing is escaped: an option value `a;b` yields two segments, so
      `b` reaches the driver as a setting of its own (for instance
      `charset => "utf8;dbname=other"` smuggles in a second `dbname=`). */
  lemma OptionValueInjectsSegment(driver: string, dbname: string, hostname: string, key: string, a: string, b: string)
    requires ';' !in driver && ';' !in dbname && ';' !in hostname
    requires ';' !in key && ';' !in a && ';' !in b
    ensures Segments(BuildDsn(driver, dbname, hostname, [(key, a + ";" + b)]))
         == [driver + ":dbname=" + dbname, "host=" + hostname, key + "=" + a, b, ""]
  {
    var first := driver + ":dbname=" + dbname;
    var second := "host=" + hostname;
    var third := key + "=" + a;
    var entry := [(key, a + ";" + b)];
    assert entry[1..] == [];
    assert OptionsText(entry) == third + ";" + (b + ";" + "");
    assert BuildDsn(driver, dbname, hostname, entry)
        == first + ";" + (second + ";" + (third + ";" + (b + ";" + "")));
    SegmentsOfPiece(first, second + ";" + (third + ";" + (b + ";" + "")));
    SegmentsOfPiece(second, third + ";" + (b + ";" + ""));
    SegmentsOfPiece(third, b + ";" + "");
    SegmentsOfPiece(b, "");
  }
}
