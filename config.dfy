/**
 * The destination table: country code -> ordered list of relay targets, built
 * once at startup from `"XX:target"` directives and a default country.
 */
module Config {
  import opened Wrappers
  import opened Text

  /** The errors `argsHandler` returns; each one stops the process before it serves. */
  datatype ConfigError =
    | EmptyMapping
    | InvalidFormat(value: string)
    | InvalidCountry(country: string)
    | InvalidTarget(country: string, target: string)
    | DefaultNotMapped(default: string)

  /** One accepted directive: an upper-cased country code of 2 bytes and a non-empty target. */
  datatype Directive = Directive(country: string, target: string)

  type Table = map<string, seq<string>>

  /** Every key is an upper-case code of 2 bytes and every list is non-empty. */
  predicate WellFormed(m: Table) {
    forall c :: c in m ==> ByteLen(c) == 2 && IsUpper(c) && |m[c]| >= 1
  }

  /** The state `getResult` relies on: a well-formed table whose keys include the default. */
  predicate ValidTable(m: Table, defaultCountry: string) {
    WellFormed(m) && defaultCountry in m
  }

  /** Go's read of a map of slices: a missing key reads as the empty (nil) slice. */
  function Targets(m: Table, c: string): seq<string> {
    if c in m then m[c] else []
  }

  /**
   * One directive `value`, split on EVERY `:`: exactly one `:` is accepted,
   * the upper-cased text before it must be 2 bytes long in UTF-8 (Go's `len`
   * on a string), and the text after it must be non-empty.
   */
  function ParseDirective(value: string): Result<Directive, ConfigError> {
    var parts := Split(value, ':');
    if |parts| != 2 then Err(InvalidFormat(value))
    else
      var country := ToUpper(parts[0]);
      if ByteLen(country) != 2 then Err(InvalidCountry(country))
      else
        var target := parts[1];
        if |target| < 1 then Err(InvalidTarget(country, target))
        else Ok(Directive(country, target))
  }

  /**
   * The outcome of `ParseDirective` in terms of the position of the only `:`:
   * the error for each way a directive can be malformed, and the country and
   * target of an accepted one.
   */
  lemma ParseDirectiveCases(value: string)
    ensures Count(value, ':') != 1 ==> ParseDirective(value) == Err(InvalidFormat(value))
    ensures Count(value, ':') == 1 ==>
      ':' in value &&
      var i := IndexOf(value, ':');
      ParseDirective(value) ==
        if ByteLen(value[..i]) != 2 then Err(InvalidCountry(ToUpper(value[..i])))
        else if i + 1 == |value| then Err(InvalidTarget(ToUpper(value[..i]), ""))
        else Ok(Directive(ToUpper(value[..i]), value[i + 1..]))
  {
    if Count(value, ':') == 1 {
      SplitOnce(value, ':');
      ToUpperByteLen(value[..IndexOf(value, ':')]);
    }
  }

  /**
   * An accepted directive is an upper-case country of 2 bytes (one or two
   * characters), `:`, and a non-empty target without `:`.
   */
  lemma ParseDirectiveOk(value: string)
    requires ParseDirective(value).Ok?
    ensures var d := ParseDirective(value).value; var n := |d.country|;
      && ByteLen(d.country) == 2 && 1 <= n <= 2 && IsUpper(d.country)
      && |d.target| >= 1 && ':' !in d.target
      && n < |value| && ToUpper(value[..n]) == d.country && value == value[..n] + ":" + d.target
  {
    SplitOnce(value, ':');
  }

  /** `len` counts bytes: two accented capitals make 4 bytes, too long for a country code. */
  lemma CountryTooLongInBytes()
    ensures ParseDirective("\U{C9}\U{C9}:x") == Err(InvalidCountry("\U{C9}\U{C9}"))
  {
    var v := "\U{C9}\U{C9}:x";
    assert Count(v, ':') == 1;
    IndexOfUnique(v, ':', 2);
    assert v[..2] == "\U{C9}\U{C9}" && IsUpper(v[..2]);
    assert ByteLen(v[..2]) == 4;
    ParseDirectiveCases(v);
  }

  /** `len` counts bytes: one accented capital is 2 bytes, a valid country code. */
  lemma OneCharacterCountry()
    ensures ParseDirective("\U{C9}:x") == Ok(Directive("\U{C9}", "x"))
  {
    var v := "\U{C9}:x";
    assert Count(v, ':') == 1;
    IndexOfUnique(v, ':', 1);
    assert v[..1] == "\U{C9}" && IsUpper(v[..1]);
    assert ByteLen(v[..1]) == 2;
    assert v[2..] == "x";
    ParseDirectiveCases(v);
  }

  /** A directive with two or more colons is rejected as malformed. */
  lemma ExtraColonRejected(value: string)
    requires Count(value, ':') >= 2
    ensures ParseDirective(value) == Err(InvalidFormat(value))
  {
    ParseDirectiveCases(value);
  }

  /** `destinationMap[country] = append(destinationMap[country], target)`. */
  function Append(m: Table, d: Directive): (r: Table)
    ensures r.Keys == m.Keys + {d.country}
    ensures Targets(r, d.country) == Targets(m, d.country) + [d.target]
    ensures forall c :: c != d.country ==> Targets(r, c) == Targets(m, c)
  {
    m[d.country := Targets(m, d.country) + [d.target]]
  }

  /** The table reached so far and the error, if any, that stopped the loop. */
  datatype Progress = Progress(table: Table, error: Option<ConfigError>)

  /**
   * The directive loop of `argsHandler`: directives are added in order until
   * the first one that does not parse; the table is left as it was at that point.
   */
  function Accumulate(m: Table, values: seq<string>): Progress
    decreases |values|
  {
    if values == [] then Progress(m, None)
    else
      match ParseDirective(values[0])
      case Err(e) => Progress(m, Some(e))
      case Ok(d) => Accumulate(Append(m, d), values[1..])
  }

  /** The targets, in input order, that accepted directives give country `c`. */
  function TargetsOf(values: seq<string>, c: string): seq<string>
    decreases |values|
  {
    if values == [] then []
    else
      (match ParseDirective(values[0])
       case Ok(d) => if d.country == c then [d.target] else []
       case Err(_) => [])
      + TargetsOf(values[1..], c)
  }

  /** The loop stops with an error exactly when some directive does not parse. */
  lemma {:induction false} AccumulateFails(m: Table, values: seq<string>)
    ensures Accumulate(m, values).error.None? <==>
            forall i :: 0 <= i < |values| ==> ParseDirective(values[i]).Ok?
    decreases |values|
  {
    if values != [] {
      match ParseDirective(values[0])
      case Err(_) =>
      case Ok(d) =>
        AccumulateFails(Append(m, d), values[1..]);
        assert forall i :: 1 <= i < |values| ==> values[i] == values[1..][i - 1];
    }
  }

  /** Whatever the loop reaches, partial or complete, stays well formed. */
  lemma {:induction false} AccumulateWellFormed(m: Table, values: seq<string>)
    requires WellFormed(m)
    ensures WellFormed(Accumulate(m, values).table)
    decreases |values|
  {
    if values != [] {
      match ParseDirective(values[0])
      case Err(_) =>
      case Ok(d) =>
        ParseDirectiveOk(values[0]);
        AccumulateWellFormed(Append(m, d), values[1..]);
    }
  }

  /**
   * On success every country's list is its old list followed by the targets
   * the directives gave it, in input order; countries no directive names keep
   * their list.
   */
  lemma {:induction false} AccumulateOrder(m: Table, values: seq<string>, c: string)
    requires Accumulate(m, values).error.None?
    ensures Targets(Accumulate(m, values).table, c) == Targets(m, c) + TargetsOf(values, c)
    decreases |values|
  {
    if values != [] {
      var r := ParseDirective(values[0]);
      if r.Ok? {
        var d := r.value;
        var m1 := Append(m, d);
        var added := if d.country == c then [d.target] else [];
        assert Accumulate(m, values) == Accumulate(m1, values[1..]);
        AccumulateOrder(m1, values[1..], c);
        assert Targets(m1, c) == Targets(m, c) + added;
        assert TargetsOf(values, c) == added + TargetsOf(values[1..], c);
        ConcatAssoc(Targets(m, c), added, TargetsOf(values[1..], c));
      }
    } else {
      assert Targets(m, c) + TargetsOf(values, c) == Targets(m, c);
    }
  }

  /** A country gets a target exactly when some accepted directive names it. */
  lemma {:induction false} TargetsOfNonEmpty(values: seq<string>, c: string)
    ensures TargetsOf(values, c) != [] <==>
            exists i :: 0 <= i < |values| && ParseDirective(values[i]).Ok? &&
                        ParseDirective(values[i]).value.country == c
    decreases |values|
  {
    if values != [] {
      TargetsOfNonEmpty(values[1..], c);
      assert forall i :: 1 <= i < |values| ==> values[i] == values[1..][i - 1];
      if TargetsOf(values[1..], c) != [] {
        var j :| 0 <= j < |values[1..]| && ParseDirective(values[1..][j]).Ok? &&
                 ParseDirective(values[1..][j]).value.country == c;
        assert values[j + 1] == values[1..][j];
      }
    }
  }

  /** The table, default and error `argsHandler` leaves behind. */
  datatype Setup = Setup(table: Table, defaultCountry: string, error: Option<ConfigError>)

  /**
   * `argsHandler` on the directives `mapping`, starting from table `m0` and
   * with `flag` the raw `--default` value.
   */
  function Configure(m0: Table, mapping: seq<string>, flag: string): Setup {
    if |mapping| < 1 then Setup(m0, flag, Some(EmptyMapping))
    else
      var p := Accumulate(m0, mapping);
      if p.error.Some? then Setup(p.table, flag, p.error)
      else
        var d := ToUpper(flag);
        Setup(p.table, d, if d in p.table then None else Some(DefaultNotMapped(d)))
  }

  /** Zero directives is an error, whatever the default. */
  lemma EmptyMappingRejected(m0: Table, flag: string)
    ensures Configure(m0, [], flag).error == Some(EmptyMapping)
  {
  }

  /** A successful construction from a well-formed table yields a valid table. */
  lemma ConfigureValid(m0: Table, mapping: seq<string>, flag: string)
    requires WellFormed(m0)
    requires Configure(m0, mapping, flag).error.None?
    ensures ValidTable(Configure(m0, mapping, flag).table, Configure(m0, mapping, flag).defaultCountry)
    ensures Configure(m0, mapping, flag).defaultCountry == ToUpper(flag)
  {
    AccumulateWellFormed(m0, mapping);
  }

  /**
   * Construction from the empty table succeeds exactly when there is at least
   * one directive, every directive parses, and some directive names the
   * upper-cased default country.
   */
  lemma ConfigureSucceeds(mapping: seq<string>, flag: string)
    ensures Configure(map[], mapping, flag).error.None? <==>
      && |mapping| >= 1
      && (forall i :: 0 <= i < |mapping| ==> ParseDirective(mapping[i]).Ok?)
      && exists i :: 0 <= i < |mapping| && ParseDirective(mapping[i]).Ok? &&
                     ParseDirective(mapping[i]).value.country == ToUpper(flag)
  {
    var m0: Table := map[];
    AccumulateFails(m0, mapping);
    var p := Accumulate(m0, mapping);
    if |mapping| >= 1 && p.error.None? {
      var d := ToUpper(flag);
      AccumulateOrder(m0, mapping, d);
      AccumulateWellFormed(m0, mapping);
      TargetsOfNonEmpty(mapping, d);
      assert d in p.table <==> Targets(p.table, d) != [];
    }
  }

  /**
   * After a successful construction each country's list holds exactly the
   * targets of its directives, in input order.
   */
  lemma ConfigureOrder(mapping: seq<string>, flag: string, c: string)
    requires Configure(map[], mapping, flag).error.None?
    ensures Targets(Configure(map[], mapping, flag).table, c) == TargetsOf(mapping, c)
  {
    AccumulateOrder(map[], mapping, c);
  }

  /**
   * The package-level state of the program: `destinationMap` and
   * `defaultTarget`, with `init` and `argsHandler` as the operations that
   * write them.
   */
  class TransportMap {
    var destinationMap: Table
    var defaultTarget: string

    /** `init()`: an empty `destinationMap`; `defaultTarget` starts as Go's zero string. */
    constructor ()
      ensures destinationMap == map[] && defaultTarget == ""
    {
      destinationMap := map[];
      defaultTarget := "";
    }

    /**
     * `argsHandler`: the CLI stores the raw `--default` value in
     * `defaultTarget`, then the directives are added one by one, and on success
     * `defaultTarget` is upper-cased and checked to be a key.
     */
    method ArgsHandler(mapping: seq<string>, defaultFlag: string) returns (err: Option<ConfigError>)
      modifies this
      ensures Setup(destinationMap, defaultTarget, err) == Configure(old(destinationMap), mapping, defaultFlag)
      ensures WellFormed(old(destinationMap)) && err.None? ==> ValidTable(destinationMap, defaultTarget)
    {
      defaultTarget := defaultFlag;
      if |mapping| < 1 {
        return Some(EmptyMapping);
      }
      ghost var m0 := destinationMap;
      var i := 0;
      while i < |mapping|
        invariant 0 <= i <= |mapping|
        invariant Accumulate(destinationMap, mapping[i..]) == Accumulate(m0, mapping)
        invariant WellFormed(m0) ==> WellFormed(destinationMap)
        invariant defaultTarget == defaultFlag
      {
        if ParseDirective(mapping[i]).Ok? {
          ParseDirectiveOk(mapping[i]);
        }
        assert mapping[i..][1..] == mapping[i + 1..];
        match ParseDirective(mapping[i])
        case Err(e) =>
          return Some(e);
        case Ok(d) =>
          destinationMap := Append(destinationMap, d);
        i := i + 1;
      }
      defaultTarget := ToUpper(defaultTarget);
      if defaultTarget !in destinationMap {
        return Some(DefaultNotMapped(defaultTarget));
      }
      return None;
    }
  }
}
