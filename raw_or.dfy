/** The dual value of a configuration field: either the raw interpolation
    string as written (when it still refers to the environment) or the
    parsed payload. Parsing is eager: whatever can be parsed without the
    environment is parsed at once, so a raw string always holds a genuine
    reference. Rendering writes a raw string back verbatim and a payload as
    its formatted text with every `$` escaped. */
module RawOrValues {
  import opened Errors
  import opened Interpolation

  /** A payload type's text form: parsing may fail, formatting may not. */
  datatype Codec<!T> = Codec(parse: string -> Result<T>, format: T -> string)

  /** Parsing what was formatted gives the value back. */
  ghost predicate RoundTrips<T(!new)>(c: Codec<T>) {
    forall v :: c.parse(c.format(v)) == Ok(v)
  }

  /** Plain strings: every text parses, as itself. */
  function TextCodec(): (c: Codec<string>)
    ensures forall s :: c.parse(s) == Ok(s) && c.format(s) == s
  {
    Codec(s => Ok(s), s => s)
  }

  lemma TextRoundTrips()
    ensures RoundTrips(TextCodec())
  {
  }

  datatype RawOrValue<T> =
    /** Valid syntax with at least one genuine reference, kept as written. */
    | Raw(raw: string)
    /** A parsed payload. */
    | Value(val: T)

  /** The invariant of the raw state. */
  predicate WellFormed<T>(x: RawOrValue<T>) {
    x.Raw? ==> ValidateStr(x.raw).Ok? && UnescapeStr(x.raw).Err?
  }

  /** Build from an interpolation string: refuse bad syntax; parse at once
      when unescaping succeeds, propagating a parse error; otherwise keep
      the string. */
  function FromRaw<T>(c: Codec<T>, s: string): (r: Result<RawOrValue<T>>)
    ensures r.Ok? ==> WellFormed(r.value)
    ensures ValidateStr(s).Err? ==> r == Err(InterpolateInvalidSyntax(s))
    ensures r.Ok? && r.value.Raw? ==> r.value.raw == s && UnescapeStr(s).Err?
    ensures ValidateStr(s).Ok? && UnescapeStr(s).Err? ==> r == Ok(Raw(s))
    ensures UnescapeStr(s).Ok? ==> ValidateStr(s).Ok? && r == FromEscaped(c, UnescapeStr(s).value)
  {
    ValidateAcceptsIff(s);
    UnescapeAgrees(s, map[]);
    match ValidateStr(s)
    case Err(e) => Err(e)
    case Ok(_) =>
      match UnescapeStr(s)
      case Ok(u) =>
        (match c.parse(u)
         case Ok(v) => Ok(Value(v))
         case Err(e) => Err(e))
      case Err(_) => Ok(Raw(s))
  }

  /** Build from a literal text, which is parsed and never interpolated. */
  function FromEscaped<T>(c: Codec<T>, s: string): (r: Result<RawOrValue<T>>)
    ensures r.Ok? <==> c.parse(s).Ok?
    ensures r.Ok? ==> r.value == Value(c.parse(s).value)
    ensures r.Err? ==> r.error == c.parse(s).error
  {
    match c.parse(s)
    case Ok(v) => Ok(Value(v))
    case Err(e) => Err(e)
  }

  /** Wrap a payload. */
  function FromValue<T>(v: T): (r: RawOrValue<T>)
    ensures WellFormed(r) && ValueOf(r) == Ok(v)
  {
    Value(v)
  }

  /** The payload, or the error that unescaping reports on a raw string:
      a raw string can only be refused as needing the environment. */
  function ValueOf<T>(x: RawOrValue<T>): (r: Result<T>)
    requires WellFormed(x)
    ensures x.Value? ==> r == Ok(x.val)
    ensures x.Raw? ==> r == Err(InterpolationDisabled(x.raw))
  {
    match x
    case Value(v) => Ok(v)
    case Raw(raw) =>
      UnescapeRefusesReferences(raw);
      Err(UnescapeStr(raw).error)
  }

  /** The text form: a raw string verbatim, a payload formatted and escaped. */
  function Render<T>(c: Codec<T>, x: RawOrValue<T>): string {
    match x
    case Raw(raw) => raw
    case Value(v) => EscapeStr(c.format(v))
  }

  /** The payload obtained by interpolating against `env` (a payload is
      returned as it is, whatever `env` holds). */
  function Resolve<T>(c: Codec<T>, x: RawOrValue<T>, env: Env): (r: Result<T>)
    ensures x.Value? ==> r == Ok(x.val)
    ensures x.Raw? && InterpolateEnv(x.raw, env).Err? ==> r == Err(InterpolateEnv(x.raw, env).error)
    ensures x.Raw? && InterpolateEnv(x.raw, env).Ok? ==> r == c.parse(InterpolateEnv(x.raw, env).value)
  {
    match x
    case Value(v) => Ok(v)
    case Raw(raw) =>
      match InterpolateEnv(raw, env)
      case Err(e) => Err(e)
      case Ok(t) => c.parse(t)
  }

  /** The state after resolving: the payload on success, unchanged on failure. */
  function Resolved<T>(c: Codec<T>, x: RawOrValue<T>, env: Env): (y: RawOrValue<T>)
    ensures Resolve(c, x, env).Ok? ==> y == Value(Resolve(c, x, env).value)
    ensures Resolve(c, x, env).Err? ==> y == x
  {
    var r := Resolve(c, x, env);
    if r.Ok? then Value(r.value) else x
  }

  // ---------------------------------------------------------------------
  // Laws.

  /** Rendering then reading back gives the same dual value, when a payload
      reads back from its own text form. */
  lemma RenderRoundTrip<T>(c: Codec<T>, x: RawOrValue<T>)
    requires WellFormed(x)
    requires x.Value? ==> c.parse(c.format(x.val)) == Ok(x.val)
    ensures FromRaw(c, Render(c, x)) == Ok(x)
  {
    if x.Value? {
      EscapeRoundTrip(c.format(x.val), Unescape, map[]);
    }
  }

  /** What is rendered is always valid interpolation syntax. */
  lemma RenderIsValid<T>(c: Codec<T>, x: RawOrValue<T>)
    requires WellFormed(x)
    ensures ValidateStr(Render(c, x)).Ok?
  {
    if x.Value? {
      EscapeRoundTrip(c.format(x.val), Unescape, map[]);
    }
  }

  /** A literal built with `FromEscaped` renders as its escaped text, when
      formatting gives back the literal. */
  lemma EscapedRendersEscaped<T>(c: Codec<T>, s: string)
    requires c.parse(s).Ok? && c.format(c.parse(s).value) == s
    ensures Render(c, FromEscaped(c, s).value) == EscapeStr(s)
  {
  }

  /** Resolving agrees with `ValueOf` wherever the latter succeeds, in any
      environment. */
  lemma ResolveExtendsValueOf<T>(c: Codec<T>, x: RawOrValue<T>, env: Env)
    requires WellFormed(x) && ValueOf(x).Ok?
    ensures Resolve(c, x, env) == ValueOf(x) && Resolved(c, x, env) == x
  {
  }

  /** Resolving keeps the raw-state invariant. */
  lemma ResolvedIsWellFormed<T>(c: Codec<T>, x: RawOrValue<T>, env: Env)
    requires WellFormed(x)
    ensures WellFormed(Resolved(c, x, env))
  {
  }

  /** Once resolved, resolving again returns the same payload in any
      environment and changes nothing. */
  lemma ResolveIdempotent<T>(c: Codec<T>, x: RawOrValue<T>, env: Env, env': Env)
    requires Resolve(c, x, env).Ok?
    ensures Resolve(c, Resolved(c, x, env), env') == Resolve(c, x, env)
    ensures Resolved(c, Resolved(c, x, env), env') == Resolved(c, x, env)
  {
  }

  /** A raw string whose references all have a value or a default fails
      only if the payload does not parse. */
  lemma ResolveNeedsOnlyDefinedVariables<T>(c: Codec<T>, x: RawOrValue<T>, env: Env)
    requires WellFormed(x) && x.Raw?
    requires forall i :: 0 <= i < |Pieces(x.raw)| && Pieces(x.raw)[i].Reference? && Pieces(x.raw)[i].fallback.None?
               ==> Pieces(x.raw)[i].name in env
    ensures InterpolateEnv(x.raw, env).Ok?
    ensures Resolve(c, x, env) == c.parse(InterpolateEnv(x.raw, env).value)
  {
    DefinedVariablesSuffice(x.raw, env);
  }

  /** `$NAME` stays raw and renders verbatim; resolved against a value for
      `NAME` it becomes that value, which renders escaped. */
  lemma RawReferenceExample(n: string, v: string, env: Env)
    requires IsName(n) && n in env && env[n] == v
    ensures FromRaw(TextCodec(), "$" + n) == Ok(Raw("$" + n))
    ensures Render(TextCodec(), Raw("$" + n)) == "$" + n
    ensures Resolved(TextCodec(), Raw("$" + n), env) == Value(v)
    ensures Render(TextCodec(), Value(v)) == EscapeStr(v)
  {
    BareReferenceModes(n);
    BareReference(n, "", env);
    assert "$" + n + "" == "$" + n;
  }

  /** A raw string without references is parsed at once. */
  lemma FromRawWithoutDollar<T>(c: Codec<T>, s: string)
    requires '$' !in s
    ensures FromRaw(c, s) == FromEscaped(c, s)
  {
    NoDollarUnchanged(s, Unescape, map[]);
  }

  /** A dual value that is updated in place: resolving moves it from the raw
      state to the parsed state, and a payload can be overwritten. */
  class RawOr<T> {
    var inner: RawOrValue<T>

    ghost predicate Valid()
      reads this
    {
      WellFormed(inner)
    }

    constructor (x: RawOrValue<T>)
      requires WellFormed(x)
      ensures inner == x && Valid()
    {
      inner := x;
    }

    /** Resolve against `env`: a payload is returned as it is; a raw string
        is interpolated and parsed, and on success replaced by the payload;
        on failure the raw string is left as it was. */
    method InterpolateEnv(c: Codec<T>, env: Env) returns (r: Result<T>)
      modifies this
      ensures r == Resolve(c, old(inner), env)
      ensures inner == Resolved(c, old(inner), env)
      ensures old(Valid()) ==> Valid()
    {
      match inner {
        case Value(v) =>
          r := Ok(v);
        case Raw(raw) =>
          var t := InterpolateHelper(raw, Interpolate, env);
          if t.Err? {
            r := Err(t.error);
            return;
          }
          var p := c.parse(t.value);
          if p.Err? {
            r := p;
            return;
          }
          inner := Value(p.value);
          r := p;
      }
    }

    /** Overwrite the payload through the mutable accessor; a raw string
        refuses, reporting that it needs the environment. */
    method SetValue(v: T) returns (r: Result<()>)
      requires Valid()
      modifies this
      ensures old(inner).Value? ==> r == Ok(()) && inner == Value(v)
      ensures old(inner).Raw? ==> r == Err(InterpolationDisabled(old(inner).raw)) && inner == old(inner)
      ensures Valid()
    {
      match ValueOf(inner) {
        case Ok(_) =>
          inner := Value(v);
          r := Ok(());
        case Err(e) =>
          r := Err(e);
      }
    }
  }
}
