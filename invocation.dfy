/** The synchronous part of `Client.connect`: the caller's configuration
    object is normalised (port default, boolean coercion, private-key check)
    and turned into the argument vector of the `sftp` program. */
module Invocation {
  import opened Wrappers

  /** The JavaScript values a configuration field can hold. Numbers are
      integers here. */
  datatype Value = Undefined | Null | Bool(b: bool) | Num(n: int) | Str(s: string)

  /** A `privateKey` field: a plain value, or a Node `Buffer` of key bytes. */
  datatype KeyValue = KeyPlain(v: Value) | KeyBuffer(bytes: seq<bv8>)

  /** The object the caller passes to `connect`. */
  datatype RawConfig = RawConfig(
    host: Value,
    port: Value,
    forceIPv4: Value,
    forceIPv6: Value,
    username: Value,
    password: Value,
    compress: Value,
    privateKey: KeyValue)

  /** The object `connect` stores in `this.config`. */
  datatype Config = Config(
    host: Value,
    port: Value,
    forceIPv4: bool,
    forceIPv6: bool,
    username: Value,
    password: Value,
    compress: bool,
    privateKey: Option<Value>)

  const KeyError: string := "privateKey must be a string path"
  const DefaultPort: Value := Num(22)

  /** JavaScript truthiness, as used by `if`, `?:` and `||`. */
  function Truthy(v: Value): (b: bool)
    ensures !b <==> v in {Undefined, Null, Bool(false), Num(0), Str("")}
  {
    match v
    case Undefined => false
    case Null => false
    case Bool(b) => b
    case Num(n) => n != 0
    case Str(s) => s != ""
  }

  /** A Buffer is an object, and every object is truthy. */
  function KeyTruthy(k: KeyValue): (b: bool)
    ensures !b <==> k.KeyPlain? && k.v in {Undefined, Null, Bool(false), Num(0), Str("")}
  {
    match k
    case KeyPlain(v) => Truthy(v)
    case KeyBuffer(_) => true
  }

  /** The object literal that `connect` assigns to `this.config`. */
  function Normalise(raw: RawConfig): (c: Config)
    ensures !Truthy(raw.port) ==> c.port == DefaultPort
    ensures Truthy(raw.port) ==> c.port == raw.port
    ensures c.forceIPv4 == Truthy(raw.forceIPv4)
    ensures c.forceIPv6 == Truthy(raw.forceIPv6)
    ensures c.compress == Truthy(raw.compress)
    ensures c.host == raw.host && c.username == raw.username && c.password == raw.password
    ensures c.privateKey == None
  {
    Config(
      raw.host,
      if Truthy(raw.port) then raw.port else DefaultPort,
      Truthy(raw.forceIPv4),
      Truthy(raw.forceIPv6),
      raw.username,
      raw.password,
      Truthy(raw.compress),
      None)
  }

  /** The configuration `connect` goes on with, or the rejection of a key
      given as a Buffer instead of a file path. */
  function Configure(raw: RawConfig): (r: Result<Config, string>)
    ensures r.Failure? <==> raw.privateKey.KeyBuffer?
    ensures r.Failure? ==> r.error == KeyError
    ensures r.Success? ==>
      r.value.(privateKey := None) == Normalise(raw) &&
      r.value.privateKey == (if KeyTruthy(raw.privateKey) then Some(raw.privateKey.v) else None)
  {
    var c := Normalise(raw);
    if !KeyTruthy(raw.privateKey) then Success(c)
    else
      match raw.privateKey
      case KeyBuffer(_) => Failure(KeyError)
      case KeyPlain(v) => Success(c.(privateKey := Some(v)))
  }

  /** The decimal digits of n, most significant first. */
  function Digits(n: nat): (d: string)
    ensures |d| >= 1
    decreases n
  {
    (if n < 10 then "" else Digits(n / 10)) + [('0' as int + n % 10) as char]
  }

  /** The value of a string of decimal digits, read most significant first. */
  function DecimalValue(s: string): int
    decreases |s|
  {
    if s == [] then 0 else DecimalValue(s[..|s| - 1]) * 10 + (s[|s| - 1] as int - '0' as int)
  }

  /** Reading an integer back the way `Number` reads a decimal numeral. */
  function ReadInteger(s: string): int {
    if |s| > 0 && s[0] == '-' then -DecimalValue(s[1..]) else DecimalValue(s)
  }

  /** The digits of n are the digits of n / 10 (none when n < 10), then
      the digit for n % 10. */
  lemma DigitsSnoc(n: nat)
    ensures Digits(n)[..|Digits(n)| - 1] == (if n < 10 then "" else Digits(n / 10))
    ensures Digits(n)[|Digits(n)| - 1] as int == '0' as int + n % 10
  {
  }

  /** Every character of the digits of n is a decimal digit. */
  lemma {:induction false} DigitsAreDecimal(n: nat)
    ensures forall k :: 0 <= k < |Digits(n)| ==> '0' <= Digits(n)[k] <= '9'
    decreases n
  {
    DigitsSnoc(n);
    if n >= 10 {
      DigitsAreDecimal(n / 10);
      forall k | 0 <= k < |Digits(n)| - 1
        ensures '0' <= Digits(n)[k] <= '9'
      {
        assert Digits(n)[k] == Digits(n / 10)[k];
      }
    }
  }

  /** The digits of n start with a decimal digit, and with `0` only for 0. */
  lemma {:induction false} DigitsLead(n: nat)
    ensures '0' <= Digits(n)[0] <= '9'
    ensures Digits(n)[0] == '0' ==> n == 0
    decreases n
  {
    DigitsSnoc(n);
    if n >= 10 {
      DigitsLead(n / 10);
      assert Digits(n)[0] == Digits(n / 10)[0];
    }
  }

  /** The digits of n read back as n. */
  lemma {:induction false} DigitsValue(n: nat)
    ensures DecimalValue(Digits(n)) == n
    decreases n
  {
    var d := Digits(n);
    DigitsSnoc(n);
    var q, r := n / 10, n % 10;
    assert n == q * 10 + r;
    if n >= 10 {
      DigitsValue(q);
      assert DecimalValue(d) == DecimalValue(Digits(q)) * 10 + r;
    } else {
      assert DecimalValue(d) == DecimalValue("") * 10 + r;
    }
  }

  /** `String(v)`, as a template literal renders it. */
  function ToString(v: Value): string {
    match v
    case Undefined => "undefined"
    case Null => "null"
    case Bool(b) => if b then "true" else "false"
    case Num(n) => if n < 0 then "-" + Digits(-n) else Digits(n)
    case Str(s) => s
  }

  /** A numeral that starts with a digit reads as its decimal value, and
      with a minus sign in front as the negated value. */
  lemma ReadSigned(d: string)
    requires |d| >= 1 && '0' <= d[0] <= '9'
    ensures ReadInteger(d) == DecimalValue(d)
    ensures ReadInteger("-" + d) == -DecimalValue(d)
  {
    assert ("-" + d)[1..] == d;
  }

  /** A rendered integer reads back as the same integer, and its sign is
      shown exactly when it is negative. */
  lemma NumberRoundTrip(n: int)
    ensures ReadInteger(ToString(Num(n))) == n
    ensures (ToString(Num(n))[0] == '-') <==> n < 0
  {
    var m: nat := if n < 0 then -n else n;
    DigitsLead(m);
    DigitsValue(m);
    ReadSigned(Digits(m));
    assert ToString(Num(n)) == if n < 0 then "-" + Digits(m) else Digits(m);
  }

  /** The last argument, `${username}@${host}`: the rendered user name, an
      `@`, then the rendered host. */
  function Destination(cfg: Config): (d: string)
    ensures |d| == |ToString(cfg.username)| + 1 + |ToString(cfg.host)|
    ensures d[..|ToString(cfg.username)|] == ToString(cfg.username)
    ensures d[|ToString(cfg.username)|] == '@'
    ensures d[|ToString(cfg.username)| + 1..] == ToString(cfg.host)
  {
    ToString(cfg.username) + "@" + ToString(cfg.host)
  }

  /** What the argument vector asks of `sftp`. */
  datatype Request = Request(
    port: Option<Value>,
    ipv4: bool,
    ipv6: bool,
    compress: bool,
    identity: Option<Value>,
    destination: string)

  /** The options a configuration calls for: `-P` only for a port other than
      22 (compared with `!==`), `-i` only for a truthy key. */
  function Requested(cfg: Config): Request {
    Request(
      if cfg.port != DefaultPort then Some(cfg.port) else None,
      cfg.forceIPv4,
      cfg.forceIPv6,
      cfg.compress,
      if cfg.privateKey.Some? && Truthy(cfg.privateKey.value) then cfg.privateKey else None,
      Destination(cfg))
  }

  /** Reads an optional `flag value` pair at the front of args. */
  function TakeOption(args: seq<Value>, flag: string): (Option<Value>, seq<Value>) {
    if |args| >= 2 && args[0] == Str(flag) then (Some(args[1]), args[2..]) else (None, args)
  }

  /** Reads an optional `flag` at the front of args. */
  function TakeFlag(args: seq<Value>, flag: string): (bool, seq<Value>) {
    if |args| >= 1 && args[0] == Str(flag) then (true, args[1..]) else (false, args)
  }

  /** Reads an argument vector laid out in the order `connect` uses:
      `-q`, `-P port`, `-4`, `-6`, `-C`, `-i key`, each option optional,
      then exactly one `user@host` string. */
  function ParseArgs(args: seq<Value>): Option<Request> {
    if |args| == 0 || args[0] != Str("-q") then None
    else
      var port := TakeOption(args[1..], "-P");
      var ipv4 := TakeFlag(port.1, "-4");
      var ipv6 := TakeFlag(ipv4.1, "-6");
      var compress := TakeFlag(ipv6.1, "-C");
      var identity := TakeOption(compress.1, "-i");
      ParseDestination(identity.1, Request(port.0, ipv4.0, ipv6.0, compress.0, identity.0, ""))
  }

  /** The single destination argument that ends the vector. */
  function ParseDestination(rest: seq<Value>, options: Request): Option<Request> {
    if |rest| == 1 && rest[0].Str? then Some(options.(destination := rest[0].s)) else None
  }

  function OptionPart(flag: string, o: Option<Value>): seq<Value> {
    if o.Some? then [Str(flag), o.value] else []
  }

  function FlagPart(flag: string, b: bool): seq<Value> {
    if b then [Str(flag)] else []
  }

  /** The argument vector that asks for request r, as nested suffixes, one
      per option, so that each parse stage removes one of them. */
  ghost function Layout(r: Request): seq<Value> {
    [Str("-q")] + FromPort(r)
  }

  ghost function FromPort(r: Request): seq<Value> {
    OptionPart("-P", r.port) + FromIPv4(r)
  }

  ghost function FromIPv4(r: Request): seq<Value> {
    FlagPart("-4", r.ipv4) + FromIPv6(r)
  }

  ghost function FromIPv6(r: Request): seq<Value> {
    FlagPart("-6", r.ipv6) + FromCompress(r)
  }

  ghost function FromCompress(r: Request): seq<Value> {
    FlagPart("-C", r.compress) + FromIdentity(r)
  }

  ghost function FromIdentity(r: Request): seq<Value> {
    OptionPart("-i", r.identity) + [Str(r.destination)]
  }

  lemma TakeOptionPart(flag: string, o: Option<Value>, rest: seq<Value>)
    requires |rest| >= 1 && rest[0] != Str(flag)
    ensures TakeOption(OptionPart(flag, o) + rest, flag) == (o, rest)
  {
    if o.Some? {
      assert (OptionPart(flag, o) + rest)[2..] == rest;
    } else {
      assert OptionPart(flag, o) + rest == rest;
    }
  }

  lemma TakeFlagPart(flag: string, b: bool, rest: seq<Value>)
    requires |rest| >= 1 && rest[0] != Str(flag)
    ensures TakeFlag(FlagPart(flag, b) + rest, flag) == (b, rest)
  {
    if b {
      assert (FlagPart(flag, b) + rest)[1..] == rest;
    } else {
      assert FlagPart(flag, b) + rest == rest;
    }
  }

  /** No option name contains `@`, so a destination is never read as one. */
  lemma DestinationIsNoName(d: string, name: string)
    requires '@' in d && '@' !in name
    ensures Str(d) != Str(name)
  {
  }

  // Each stage of the parse takes its own part off the front of the layout:
  // what follows starts with a later option name or with the destination,
  // and the names differ in their second character.

  lemma IdentityStage(r: Request)
    requires '@' in r.destination
    ensures TakeOption(FromIdentity(r), "-i") == (r.identity, [Str(r.destination)])
  {
    DestinationIsNoName(r.destination, "-i");
    TakeOptionPart("-i", r.identity, [Str(r.destination)]);
  }

  lemma CompressStage(r: Request)
    requires '@' in r.destination
    ensures TakeFlag(FromCompress(r), "-C") == (r.compress, FromIdentity(r))
  {
    DestinationIsNoName(r.destination, "-C");
    assert "-i"[1] != "-C"[1];
    TakeFlagPart("-C", r.compress, FromIdentity(r));
  }

  lemma IPv6Stage(r: Request)
    requires '@' in r.destination
    ensures TakeFlag(FromIPv6(r), "-6") == (r.ipv6, FromCompress(r))
  {
    DestinationIsNoName(r.destination, "-6");
    assert "-i"[1] != "-6"[1] && "-C"[1] != "-6"[1];
    TakeFlagPart("-6", r.ipv6, FromCompress(r));
  }

  lemma IPv4Stage(r: Request)
    requires '@' in r.destination
    ensures TakeFlag(FromIPv4(r), "-4") == (r.ipv4, FromIPv6(r))
  {
    DestinationIsNoName(r.destination, "-4");
    assert "-i"[1] != "-4"[1] && "-C"[1] != "-4"[1] && "-6"[1] != "-4"[1];
    TakeFlagPart("-4", r.ipv4, FromIPv6(r));
  }

  lemma PortStage(r: Request)
    requires '@' in r.destination
    ensures TakeOption(FromPort(r), "-P") == (r.port, FromIPv4(r))
  {
    DestinationIsNoName(r.destination, "-P");
    assert "-i"[1] != "-P"[1] && "-C"[1] != "-P"[1] && "-6"[1] != "-P"[1] && "-4"[1] != "-P"[1];
    TakeOptionPart("-P", r.port, FromIPv4(r));
  }

  /** The argument vector of any request reads back as that request, so
      each option appears exactly when it is asked for, in the fixed order. */
  lemma ParseLayout(r: Request)
    requires '@' in r.destination
    ensures ParseArgs(Layout(r)) == Some(r)
  {
    assert Layout(r)[1..] == FromPort(r);
    PortStage(r);
    IPv4Stage(r);
    IPv6Stage(r);
    CompressStage(r);
    IdentityStage(r);
  }

  lemma Associate(a: seq<Value>, b: seq<Value>, c: seq<Value>)
    ensures a + b + c == a + (b + c)
  {
  }

  /** The layout as `connect` pushes it, front to back. */
  lemma AppendLayout(r: Request)
    ensures [Str("-q")] + OptionPart("-P", r.port) + FlagPart("-4", r.ipv4) + FlagPart("-6", r.ipv6)
      + FlagPart("-C", r.compress) + OptionPart("-i", r.identity) + [Str(r.destination)] == Layout(r)
  {
    var q, p, f4, f6, fc, i, d := [Str("-q")], OptionPart("-P", r.port), FlagPart("-4", r.ipv4),
      FlagPart("-6", r.ipv6), FlagPart("-C", r.compress), OptionPart("-i", r.identity), [Str(r.destination)];
    Associate(q + p + f4 + f6 + fc, i, d);
    Associate(q + p + f4 + f6, fc, FromIdentity(r));
    Associate(q + p + f4, f6, FromCompress(r));
    Associate(q + p, f4, FromIPv6(r));
    Associate(q, p, FromIPv4(r));
  }

  /** A vector pushed in the order `connect` uses reads back as the
      configuration's request. */
  lemma ReadBack(cfg: Config, args: seq<Value>)
    requires args == [Str("-q")] + OptionPart("-P", Requested(cfg).port) + FlagPart("-4", cfg.forceIPv4)
      + FlagPart("-6", cfg.forceIPv6) + FlagPart("-C", cfg.compress)
      + OptionPart("-i", Requested(cfg).identity) + [Str(Destination(cfg))]
    ensures |args| >= 2 && args[0] == Str("-q") && args[|args| - 1] == Str(Destination(cfg))
    ensures ParseArgs(args) == Some(Requested(cfg))
  {
    var r := Requested(cfg);
    AppendLayout(r);
    assert Destination(cfg)[|ToString(cfg.username)|] == '@';
    ParseLayout(r);
  }

  /** The argument vector `connect` builds for cfg, pushed element by
      element. It starts with `-q`, ends with `user@host`, and reads back as
      exactly the options the configuration asks for. */
  method BuildArgs(cfg: Config) returns (args: seq<Value>)
    ensures |args| >= 2 && args[0] == Str("-q") && args[|args| - 1] == Str(Destination(cfg))
    ensures ParseArgs(args) == Some(Requested(cfg))
  {
    ghost var r := Requested(cfg);
    args := [Str("-q")];
    if cfg.port != DefaultPort {
      args := args + [Str("-P")];
      args := args + [cfg.port];
    }
    ghost var layout := [Str("-q")] + OptionPart("-P", r.port);
    assert args == layout;
    if cfg.forceIPv4 {
      args := args + [Str("-4")];
    }
    layout := layout + FlagPart("-4", r.ipv4);
    assert args == layout;
    if cfg.forceIPv6 {
      args := args + [Str("-6")];
    }
    layout := layout + FlagPart("-6", r.ipv6);
    assert args == layout;
    if cfg.compress {
      args := args + [Str("-C")];
    }
    layout := layout + FlagPart("-C", r.compress);
    assert args == layout;
    if cfg.privateKey.Some? && Truthy(cfg.privateKey.value) {
      args := args + [Str("-i")];
      args := args + [cfg.privateKey.value];
    }
    layout := layout + OptionPart("-i", r.identity);
    assert args == layout;
    args := args + [Str(Destination(cfg))];
    ReadBack(cfg, args);
  }
}
