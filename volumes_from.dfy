/** Mounting the volumes of another service or container: the text form is
    `[container:]name[:mode]`, where the name and the mode contain no colon
    and the mode is written only when it differs from the default. The
    volume mode itself is kept abstract: a default value and a text codec. */
module Volumes {
  import opened Errors
  import opened RawOrValues

  datatype ServiceOrContainer =
    /** A service defined in the same compose file. */
    | Service(name: string)
    /** A container started elsewhere. */
    | Container(name: string)

  datatype VolumesFrom<M> = VolumesFrom(source: ServiceOrContainer, mode: M)

  /** The volume modes: which one is the default, and their text form. */
  datatype Modes<!M> = Modes(default: M, codec: Codec<M>)

  const ContainerPrefix: string := "container:"

  function OfService<M>(modes: Modes<M>, n: string): (vf: VolumesFrom<M>)
    ensures vf.source.Service? && vf.source.name == n && vf.mode == modes.default
  {
    VolumesFrom(Service(n), modes.default)
  }

  function OfContainer<M>(modes: Modes<M>, n: string): (vf: VolumesFrom<M>)
    ensures vf.source.Container? && vf.source.name == n && vf.mode == modes.default
  {
    VolumesFrom(Container(n), modes.default)
  }

  /** A segment of the pattern: non-empty and without a colon. */
  predicate IsSegment(s: string) {
    s != [] && ':' !in s
  }

  /** Write the text form: the prefix for a container, then the name, then
      the mode after a colon unless it is the default. */
  function Format<M(==)>(modes: Modes<M>, vf: VolumesFrom<M>): (r: string)
    ensures vf.source.Container? ==> ContainerPrefix <= r
    ensures vf.source.Service? && vf.mode == modes.default ==> r == vf.source.name
  {
    (match vf.source
     case Service(n) => n
     case Container(n) => ContainerPrefix + n)
    + (if vf.mode != modes.default then ":" + modes.codec.format(vf.mode) else "")
  }

  /** The index of the first colon of `t`, or its length when there is none. */
  function ColonIndex(t: string): (i: nat)
    ensures i <= |t|
    ensures forall j :: 0 <= j < i ==> t[j] != ':'
    ensures i < |t| ==> t[i] == ':'
  {
    if t == [] || t[0] == ':' then 0 else 1 + ColonIndex(t[1..])
  }

  /** What the pattern captures: the name and, when present, the mode text. */
  datatype Segments = Segments(name: string, modeText: Option<string>)

  /** The anchored pattern `[^:]+(:[^:]+)?` on the whole of `t`: the name and,
      when present, the mode text. */
  function NameAndMode(t: string): (r: Option<Segments>)
    ensures r.Some? ==> IsSegment(r.value.name)
    ensures r.Some? && r.value.modeText.None? ==> t == r.value.name
    ensures r.Some? && r.value.modeText.Some? ==>
      IsSegment(r.value.modeText.value) && t == r.value.name + ":" + r.value.modeText.value
  {
    var i := ColonIndex(t);
    if i == 0 then None
    else if i == |t| then
      assert t[..i] == t;
      Some(Segments(t, None))
    else if i + 1 < |t| && ':' !in t[i + 1..] then
      assert t == t[..i] + ":" + t[i + 1..];
      Some(Segments(t[..i], Some(t[i + 1..])))
    else None
  }

  /** The whole pattern `(container:)?[^:]+(:[^:]+)?`: whether the
      `container:` alternative matched, and the segments. That alternative is
      tried first; otherwise the whole text must match without it. */
  function Match(s: string): (r: Option<(bool, Segments)>)
    ensures r.Some? && r.value.0 ==>
      ContainerPrefix <= s && NameAndMode(s[|ContainerPrefix|..]) == Some(r.value.1)
    ensures r.Some? && !r.value.0 ==> NameAndMode(s) == Some(r.value.1)
    ensures r.None? ==> NameAndMode(s).None?
  {
    if ContainerPrefix <= s && NameAndMode(s[|ContainerPrefix|..]).Some? then
      Some((true, NameAndMode(s[|ContainerPrefix|..]).value))
    else if NameAndMode(s).Some? then
      Some((false, NameAndMode(s).value))
    else
      None
  }

  /** Read the text form. A missing mode is the default, a mode that does not
      parse propagates its error, and a text the pattern does not match is an
      invalid value. */
  function Parse<M>(modes: Modes<M>, s: string): (r: Result<VolumesFrom<M>>)
    ensures Match(s).None? ==> r == Err(InvalidValue("volumes_from", s))
    ensures r.Ok? ==> IsSegment(r.value.source.name)
    ensures r.Ok? && r.value.source.Container? ==> ContainerPrefix <= s
  {
    match Match(s)
    case None => Err(InvalidValue("volumes_from", s))
    case Some(m) =>
      var source := if m.0 then Container(m.1.name) else Service(m.1.name);
      match m.1.modeText
      case None => Ok(VolumesFrom(source, modes.default))
      case Some(t) =>
        match modes.codec.parse(t)
        case Ok(mode) => Ok(VolumesFrom(source, mode))
        case Err(e) => Err(e)
  }

  /** The payload codec of a `volumes_from` entry. */
  function VolumesCodec<M(==, !new)>(modes: Modes<M>): (c: Codec<VolumesFrom<M>>)
    ensures forall vf :: c.format(vf) == Format(modes, vf)
    ensures forall s :: c.parse(s) == Parse(modes, s)
  {
    Codec(s => Parse(modes, s), vf => Format(modes, vf))
  }

  // ---------------------------------------------------------------------
  // Laws.

  /** The first colon of `n + rest`, for a colon-free `n`, is at `|n|` when
      `rest` starts with one. */
  lemma ColonAfterName(n: string, rest: string)
    requires ':' !in n && rest != [] && rest[0] == ':'
    ensures ColonIndex(n + rest) == |n|
  {
    var t := n + rest;
    assert forall j :: 0 <= j < |n| ==> t[j] == n[j] && n[j] in n;
    assert t[|n|] == ':';
  }

  /** A lone segment matches with no mode. */
  lemma NameAlone(n: string)
    requires IsSegment(n)
    ensures NameAndMode(n) == Some(Segments(n, None))
  {
    assert forall j :: 0 <= j < |n| ==> n[j] in n;
  }

  /** A segment, a colon and a segment match as a name and a mode. */
  lemma NameThenMode(n: string, t: string)
    requires IsSegment(n) && IsSegment(t)
    ensures NameAndMode(n + ":" + t) == Some(Segments(n, Some(t)))
  {
    var s := n + ":" + t;
    assert s == n + (":" + t);
    ColonAfterName(n, ":" + t);
    assert s[..|n|] == n && s[|n| + 1..] == t;
  }

  /** Text made of a segment and then nothing or a colon starts with
      `container:` exactly when the segment is `container` and the colon is
      there. */
  lemma ContainerPrefixIff(n: string, rest: string)
    requires IsSegment(n) && (rest == [] || rest[0] == ':')
    ensures ContainerPrefix <= n + rest <==> n == "container" && rest != []
  {
    var s := n + rest;
    assert forall j :: 0 <= j < |n| ==> s[j] == n[j] && n[j] in n;
    assert rest != [] ==> s[|n|] == ':';
    if ContainerPrefix <= s {
      assert s[9] == ':';
      assert forall j :: 0 <= j < 9 ==> s[j] == ContainerPrefix[j] != ':';
      assert n == s[..9];
    }
    assert n == "container" && rest != [] ==> s[..10] == ContainerPrefix;
  }

  /** Text after `container:` that matches takes the container
      alternative. */
  lemma MatchAfterPrefix(t: string, seg: Segments)
    requires NameAndMode(t) == Some(seg)
    ensures Match(ContainerPrefix + t) == Some((true, seg))
  {
    assert (ContainerPrefix + t)[|ContainerPrefix|..] == t;
  }

  /** A matching text that is not `container` followed by a colon takes the
      service alternative. */
  lemma MatchWithoutPrefix(n: string, rest: string, seg: Segments)
    requires IsSegment(n) && (rest == [] || rest[0] == ':')
    requires !(n == "container" && rest != [])
    requires NameAndMode(n + rest) == Some(seg)
    ensures Match(n + rest) == Some((false, seg))
  {
    ContainerPrefixIff(n, rest);
  }

  /** What the pattern captures in a written reference: the name, and the
      mode text when the mode is not the default. */
  lemma MatchFormat<M>(modes: Modes<M>, vf: VolumesFrom<M>)
    requires IsSegment(vf.source.name)
    requires vf.mode != modes.default ==> IsSegment(modes.codec.format(vf.mode))
    requires !(vf.source == Service("container") && vf.mode != modes.default)
    ensures Match(Format(modes, vf)) == Some((vf.source.Container?,
      Segments(vf.source.name, if vf.mode != modes.default then Some(modes.codec.format(vf.mode)) else None)))
  {
    var n := vf.source.name;
    var tail := if vf.mode != modes.default then ":" + modes.codec.format(vf.mode) else "";
    var seg := Segments(n, if vf.mode != modes.default then Some(modes.codec.format(vf.mode)) else None);
    if vf.mode == modes.default {
      NameAlone(n);
      assert n + tail == n;
    } else {
      NameThenMode(n, modes.codec.format(vf.mode));
      assert n + tail == n + ":" + modes.codec.format(vf.mode);
    }
    if vf.source.Container? {
      assert Format(modes, vf) == ContainerPrefix + (n + tail);
      MatchAfterPrefix(n + tail, seg);
    } else {
      assert Format(modes, vf) == n + tail;
      MatchWithoutPrefix(n, tail, seg);
    }
  }

  /** Reading what was written gives it back, for a colon-free non-empty
      name and a mode whose text is a colon-free non-empty segment that
      reads back as that mode; the one exception is a service named
      `container` with a mode other than the default. */
  lemma ParseFormat<M>(modes: Modes<M>, vf: VolumesFrom<M>)
    requires IsSegment(vf.source.name)
    requires vf.mode != modes.default ==>
      IsSegment(modes.codec.format(vf.mode)) && modes.codec.parse(modes.codec.format(vf.mode)) == Ok(vf.mode)
    requires !(vf.source == Service("container") && vf.mode != modes.default)
    ensures Parse(modes, Format(modes, vf)) == Ok(vf)
  {
    MatchFormat(modes, vf);
  }

  /** The exception: a service named `container` with a mode other than the
      default is written as text that reads back as a container whose name
      is the mode's text, with the default mode. */
  lemma ServiceNamedContainer<M>(modes: Modes<M>, m: M)
    requires m != modes.default && IsSegment(modes.codec.format(m))
    ensures Parse(modes, Format(modes, VolumesFrom(Service("container"), m)))
         == Ok(VolumesFrom(Container(modes.codec.format(m)), modes.default))
  {
    var t := modes.codec.format(m);
    var s := Format(modes, VolumesFrom(Service("container"), m));
    assert s == ContainerPrefix + t;
    assert s[|ContainerPrefix|..] == t;
    NameAlone(t);
  }

  /** The empty text is refused. */
  lemma EmptyRefused<M>(modes: Modes<M>)
    ensures Parse(modes, "") == Err(InvalidValue("volumes_from", ""))
  {
  }

  /** A text starting with a colon has no name and is refused. */
  lemma MissingNameRefused<M>(modes: Modes<M>, t: string)
    ensures Parse(modes, ":" + t) == Err(InvalidValue("volumes_from", ":" + t))
  {
    var s := ":" + t;
    assert s[0] == ':';
    assert ContainerPrefix[0] != s[0];
  }

  /** A colon with nothing after it is refused, even after `container`. */
  lemma EmptyModeRefused<M>(modes: Modes<M>, n: string)
    requires IsSegment(n)
    ensures Parse(modes, n + ":") == Err(InvalidValue("volumes_from", n + ":"))
  {
    ColonAfterName(n, ":");
    ContainerPrefixIff(n, ":");
    assert n == "container" ==> (n + ":")[|ContainerPrefix|..] == [];
  }

  /** A second colon after the mode text breaks the pattern. */
  lemma TwoColonsDoNotMatch(n: string, a: string, b: string)
    requires IsSegment(n) && IsSegment(a)
    ensures NameAndMode(n + ":" + a + ":" + b).None?
  {
    var rest := ":" + a + ":" + b;
    var s := n + rest;
    assert n + ":" + a + ":" + b == s;
    ColonAfterName(n, rest);
    assert s[|n| + 1..] == a + ":" + b;
    assert (a + ":" + b)[|a|] == ':';
  }

  /** Two colons after a service name are refused. */
  lemma ExtraColonRefused<M>(modes: Modes<M>, n: string, a: string, b: string)
    requires IsSegment(n) && IsSegment(a) && IsSegment(b) && n != "container"
    ensures Parse(modes, n + ":" + a + ":" + b) == Err(InvalidValue("volumes_from", n + ":" + a + ":" + b))
  {
    var rest := ":" + a + ":" + b;
    assert n + ":" + a + ":" + b == n + rest;
    ContainerPrefixIff(n, rest);
    TwoColonsDoNotMatch(n, a, b);
  }

  /** A mode text that does not parse makes the whole parse fail with the
      mode's own error. */
  lemma ModeErrorPropagates<M>(modes: Modes<M>, n: string, t: string, e: Error)
    requires IsSegment(n) && IsSegment(t) && n != "container"
    requires modes.codec.parse(t) == Err(e)
    ensures Parse(modes, n + ":" + t) == Err(e)
  {
    NameThenMode(n, t);
    assert n + ":" + t == n + (":" + t);
    ContainerPrefixIff(n, ":" + t);
  }

  /** A service reference in the default mode is written as its bare name
      and read back. */
  lemma ServiceExample<M>(modes: Modes<M>)
    ensures Format(modes, OfService(modes, "foo")) == "foo"
    ensures Parse(modes, "foo") == Ok(OfService(modes, "foo"))
  {
    ParseFormat(modes, OfService(modes, "foo"));
  }

  /** A container reference with a read-only mode written `ro`. */
  lemma ReadOnlyContainerExample<M>(modes: Modes<M>, ro: M)
    requires ro != modes.default && modes.codec.format(ro) == "ro" && modes.codec.parse("ro") == Ok(ro)
    ensures Format(modes, VolumesFrom(Container("foo"), ro)) == "container:foo:ro"
    ensures Parse(modes, "container:foo:ro") == Ok(VolumesFrom(Container("foo"), ro))
  {
    ParseFormat(modes, VolumesFrom(Container("foo"), ro));
  }

  /** A `volumes_from` payload displayed inside a configuration reads back
      as the same payload, under the conditions of `ParseFormat`. */
  lemma RenderedVolumesReadBack<M(!new)>(modes: Modes<M>, vf: VolumesFrom<M>)
    requires IsSegment(vf.source.name)
    requires vf.mode != modes.default ==>
      IsSegment(modes.codec.format(vf.mode)) && modes.codec.parse(modes.codec.format(vf.mode)) == Ok(vf.mode)
    requires !(vf.source == Service("container") && vf.mode != modes.default)
    ensures FromRaw(VolumesCodec(modes), Render(VolumesCodec(modes), Value(vf))) == Ok(Value(vf))
  {
    ParseFormat(modes, vf);
    RenderRoundTrip(VolumesCodec(modes), Value(vf));
  }
}
