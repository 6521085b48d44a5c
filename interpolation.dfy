/** Shell-style variable interpolation: one scanner shared by three modes
    (interpolate, unescape, validate).

    The scanner looks for `$` and, at each one, tries four alternatives in
    order: a bare reference `$NAME`, a braced reference `${NAME}`,
    `${NAME-default}` or `${NAME:-default}`, an escaped dollar `$$`, and
    finally "anything else", which is a syntax error. `NextPiece` below is a
    hand-written matcher with exactly the leftmost-first, greedy behaviour of
    that pattern; `Pieces` cuts a whole string into what the scanner sees, and
    `Expand` is what the replacement callback makes of each piece. */
module Interpolation {
  import opened Errors

  /** A variable source: a missing key means "unset". */
  type Env = map<string, string>

  datatype Mode = Interpolate | Unescape | Validate

  predicate IsIdentStart(c: char) {
    ('A' <= c <= 'Z') || ('a' <= c <= 'z') || c == '_'
  }

  predicate IsIdentChar(c: char) {
    IsIdentStart(c) || ('0' <= c <= '9')
  }

  /** `[A-Za-z_][A-Za-z0-9_]+`: note the `+`, a name has at least two characters. */
  predicate IsName(n: string) {
    |n| >= 2 && IsIdentStart(n[0]) && forall i :: 1 <= i < |n| ==> IsIdentChar(n[i])
  }

  /** Length of the longest prefix of `t` made of identifier characters. */
  function IdentRun(t: string): (k: nat)
    ensures k <= |t|
    ensures forall i :: 0 <= i < k ==> IsIdentChar(t[i])
    ensures k < |t| ==> !IsIdentChar(t[k])
  {
    if t == [] || !IsIdentChar(t[0]) then 0 else 1 + IdentRun(t[1..])
  }

  /** Length of the greedy match of `[A-Za-z_][A-Za-z0-9_]*` at the start of
      `t` (0 when `t` does not start with an identifier start character). */
  function NameLength(t: string): (k: nat)
    ensures k <= |t|
    ensures k == 0 <==> (t == [] || !IsIdentStart(t[0]))
    ensures k >= 2 ==> IsName(t[..k])
    ensures 0 < k < |t| ==> !IsIdentChar(t[k])
  {
    if t == [] || !IsIdentStart(t[0]) then 0 else 1 + IdentRun(t[1..])
  }

  /** Length of the longest newline-free prefix of `d`: how far `.` can reach. */
  function LineLength(d: string): (n: nat)
    ensures n <= |d|
    ensures forall i :: 0 <= i < n ==> d[i] != '\n'
    ensures n < |d| ==> d[n] == '\n'
  {
    if d == [] || d[0] == '\n' then 0 else 1 + LineLength(d[1..])
  }

  /** Where the greedy `.*\}` of a default stops: the last `}` that `.` can
      reach from the start of `d`, if there is one. */
  function DefaultEnd(d: string): (j: Option<nat>)
    ensures j.Some? ==> j.value < LineLength(d) && d[j.value] == '}'
    ensures j.Some? ==> forall k :: j.value < k < LineLength(d) ==> d[k] != '}'
    ensures j.None? ==> forall k :: 0 <= k < LineLength(d) ==> d[k] != '}'
  {
    if d == [] || d[0] == '\n' then None
    else
      var rest := DefaultEnd(d[1..]);
      if rest.Some? then Some(rest.value + 1)
      else if d[0] == '}' then Some(0)
      else None
  }

  /** The default of `${NAME-default}` / `${NAME:-default}`. */
  datatype Fallback = Fallback(colon: bool, text: string)

  /** What the scanner sees at one position. */
  datatype Piece =
    /** A character outside every match: copied as it is. */
    | Text(c: char)
    /** `$$`. */
    | Dollar
    /** `$NAME` (not braced) or `${NAME}`, `${NAME-d}`, `${NAME:-d}` (braced). */
    | Reference(name: string, braced: bool, fallback: Option<Fallback>)
    /** `$` followed by one character (or by the end of the input) that starts no valid form. */
    | Unknown(after: string)

  /** The text a piece was cut from. */
  function Spell(p: Piece): string {
    if p.Text? then [p.c] else "$" + Body(p)
  }

  /** The text of a match after its leading `$`. */
  function Body(p: Piece): string
    requires !p.Text?
  {
    match p
    case Dollar => "$"
    case Reference(name, braced, fallback) =>
      if braced then "{" + name + FallbackText(fallback) + "}" else name
    case Unknown(after) => after
  }

  function FallbackText(fallback: Option<Fallback>): string {
    match fallback
    case None => ""
    case Some(f) => (if f.colon then ":-" else "-") + f.text
  }

  /** The braced alternative `\{NAME(:?-.*)?\}` applied to the text after a
      `$`; on success, the piece and the number of characters it takes. */
  function BracedMatch(t: string): (r: Option<(Piece, nat)>)
    ensures r.Some? ==> 0 < r.value.1 <= |t|
    ensures r.Some? ==> r.value.0.Reference? && r.value.0.braced && IsName(r.value.0.name)
  {
    if t == [] || t[0] != '{' then None
    else
      var u := t[1..];
      var k := NameLength(u);
      if k < 2 then None
      else
        match AfterName(u[..k], u[k..])
        case None => None
        case Some((p, m)) => Some((p, 1 + k + m))
  }

  /** What may follow the name inside braces: `:-default}`, `-default}` or
      `}`. The name is the longest identifier run, so the character after it
      decides; on success, the piece and the number of characters of `after`
      it takes. */
  function AfterName(name: string, after: string): (r: Option<(Piece, nat)>)
    ensures r.Some? ==> 0 < r.value.1 <= |after|
    ensures r.Some? ==> r.value.0.Reference? && r.value.0.name == name && r.value.0.braced
  {
    if |after| >= 2 && after[0] == ':' && after[1] == '-' then
      var d := after[2..];
      match DefaultEnd(d)
      case None => None
      case Some(j) => Some((Reference(name, true, Some(Fallback(true, d[..j]))), j + 3))
    else if |after| >= 1 && after[0] == '-' then
      var d := after[1..];
      match DefaultEnd(d)
      case None => None
      case Some(j) => Some((Reference(name, true, Some(Fallback(false, d[..j]))), j + 2))
    else if |after| >= 1 && after[0] == '}' then
      Some((Reference(name, true, None), 1))
    else None
  }

  /** The match of the whole pattern at a `$`: the four alternatives in
      order. When none applies (a `$` followed by a newline, which `.` does
      not match) the `$` is ordinary text. */
  function MatchDollar(s: string): (r: (Piece, nat))
    requires s != [] && s[0] == '$'
    ensures 0 < r.1 <= |s|
  {
    var t := s[1..];
    var k := NameLength(t);
    if k >= 2 then (Reference(t[..k], false, None), k + 1)
    else if BracedMatch(t).Some? then (BracedMatch(t).value.0, BracedMatch(t).value.1 + 1)
    else if |t| >= 1 && t[0] == '$' then (Dollar, 2)
    else if t == [] then (Unknown([]), 1)
    else if t[0] != '\n' then (Unknown([t[0]]), 2)
    else (Text('$'), 1)
  }

  /** The next piece of a non-empty string and its length. */
  function NextPiece(s: string): (r: (Piece, nat))
    requires s != []
    ensures 0 < r.1 <= |s|
  {
    if s[0] != '$' then (Text(s[0]), 1) else MatchDollar(s)
  }

  /** The string cut into the pieces the scanner visits, left to right. */
  function Pieces(s: string): (r: seq<Piece>)
    ensures |r| <= |s|
    ensures r == [] <==> s == []
    decreases |s|
  {
    if s == [] then []
    else
      var (p, n) := NextPiece(s);
      [p] + Pieces(s[n..])
  }

  function SpellAll(ps: seq<Piece>): string {
    if ps == [] then "" else Spell(ps[0]) + SpellAll(ps[1..])
  }

  /** Replacement text so far and the error recorded so far. */
  datatype Outcome = Outcome(out: string, err: Option<Error>)

  /** `a` followed by `b`: texts concatenate, a later error replaces an earlier one. */
  function Combine(a: Outcome, b: Outcome): Outcome {
    Outcome(a.out + b.out, if b.err.Some? then b.err else a.err)
  }

  /** What the replacement callback makes of one piece. `input` is the whole
      string, which the syntax and "disabled" errors carry. */
  function Replace(p: Piece, mode: Mode, env: Env, input: string): Outcome {
    match p
    case Text(c) => Outcome([c], None)
    case Unknown(_) => Outcome("", Some(InterpolateInvalidSyntax(input)))
    case Dollar => Outcome("$", None)
    case Reference(name, _, fallback) =>
      if mode == Unescape then Outcome("", Some(InterpolationDisabled(input)))
      else if mode == Validate then Outcome("", None)
      else if name in env then
        if fallback.Some? && fallback.value.colon && env[name] == "" then Outcome(fallback.value.text, None)
        else Outcome(env[name], None)
      else if fallback.Some? then Outcome(fallback.value.text, None)
      else Outcome("", Some(InterpolateUndefinedVariable(name)))
  }

  /** A piece fails exactly when it is an unknown `$`, a reference while
      interpolation is disabled, or an unset reference without a default
      while interpolating; a failing piece contributes no text. */
  lemma ReplaceFails(p: Piece, mode: Mode, env: Env, input: string)
    ensures var r := Replace(p, mode, env, input);
      (r.err.Some? ==> r.out == "") &&
      (r.err.Some? <==> (p.Unknown? ||
        (p.Reference? && (mode == Unescape || (mode == Interpolate && p.name !in env && p.fallback.None?)))))
  {
  }

  function Expand(ps: seq<Piece>, mode: Mode, env: Env, input: string): Outcome {
    if ps == [] then Outcome("", None)
    else Combine(Replace(ps[0], mode, env, input), Expand(ps[1..], mode, env, input))
  }

  function ToResult(o: Outcome): Result<string> {
    if o.err.Some? then Err(o.err.value) else Ok(o.out)
  }

  /** The reference definition of the shared scanner: every piece replaced,
      the last error recorded wins. */
  function Interpolation(input: string, mode: Mode, env: Env): Result<string> {
    ToResult(Expand(Pieces(input), mode, env, input))
  }

  lemma CombineAssociative(a: Outcome, b: Outcome, c: Outcome)
    ensures Combine(Combine(a, b), c) == Combine(a, Combine(b, c))
  {
    assert a.out + b.out + c.out == a.out + (b.out + c.out);
  }

  lemma CombineNothing(o: Outcome)
    ensures Combine(Outcome("", None), o) == o
  {
    assert "" + o.out == o.out;
  }

  /** Expanding a string is expanding its first piece, then the rest. */
  lemma ExpandStep(s: string, p: Piece, n: nat, mode: Mode, env: Env, input: string)
    requires s != [] && NextPiece(s) == (p, n)
    ensures n <= |s|
    ensures Expand(Pieces(s), mode, env, input) == Combine(Replace(p, mode, env, input), Expand(Pieces(s[n..]), mode, env, input))
  {
    assert Pieces(s) == [p] + Pieces(s[n..]);
    assert ([p] + Pieces(s[n..]))[1..] == Pieces(s[n..]);
  }


  /** The scan invariant survives one more piece, which ends at `j`. */
  lemma ScanStep(input: string, i: nat, j: nat, p: Piece, before: Outcome, mode: Mode, env: Env)
    requires i < |input| && NextPiece(input[i..]) == (p, j - i)
    requires Combine(before, Expand(Pieces(input[i..]), mode, env, input)) == Expand(Pieces(input), mode, env, input)
    ensures j <= |input|
    ensures Combine(Combine(before, Replace(p, mode, env, input)), Expand(Pieces(input[j..]), mode, env, input))
         == Expand(Pieces(input), mode, env, input)
  {
    assert input[i..][j - i..] == input[j..];
    ExpandStep(input[i..], p, j - i, mode, env, input);
    CombineAssociative(before, Replace(p, mode, env, input), Expand(Pieces(input[j..]), mode, env, input));
  }

  /** The replacement callback for one match: appends to the output or
      overwrites the error slot. */
  method ApplyMatch(p: Piece, mode: Mode, env: Env, input: string, out: string, err: Option<Error>)
    returns (out': string, err': Option<Error>)
    ensures Outcome(out', err') == Combine(Outcome(out, err), Replace(p, mode, env, input))
  {
    out', err' := out, err;
    match p {
      case Text(c) =>
        out' := out + [c];
      case Unknown(_) =>
        err' := Some(InterpolateInvalidSyntax(input));
      case Dollar =>
        out' := out + "$";
      case Reference(name, _, fallback) =>
        if mode == Unescape {
          err' := Some(InterpolationDisabled(input));
        } else if mode == Validate {
          // The lookup is made and thrown away: only the syntax matters.
        } else if name in env && fallback.Some? && fallback.value.colon && env[name] == "" {
          out' := out + fallback.value.text;
        } else if name in env {
          out' := out + env[name];
        } else if fallback.Some? {
          out' := out + fallback.value.text;
        } else {
          err' := Some(InterpolateUndefinedVariable(name));
        }
    }
    assert out' == out + Replace(p, mode, env, input).out;
  }

  /** The scanner as the source runs it: one pass that builds the output and
      overwrites an error slot at every failing match. */
  method InterpolateHelper(input: string, mode: Mode, env: Env) returns (r: Result<string>)
    ensures r == Interpolation(input, mode, env)
  {
    var err: Option<Error> := None;
    var out := "";
    var i := 0;
    assert input[i..] == input;
    CombineNothing(Expand(Pieces(input), mode, env, input));
    while i < |input|
      invariant 0 <= i <= |input|
      invariant Combine(Outcome(out, err), Expand(Pieces(input[i..]), mode, env, input))
             == Expand(Pieces(input), mode, env, input)
    {
      var (p, n) := NextPiece(input[i..]);
      var j := i + n;
      ScanStep(input, i, j, p, Outcome(out, err), mode, env);
      out, err := ApplyMatch(p, mode, env, input, out, err);
      i := j;
    }
    assert input[i..] == [];
    assert out + "" == out;
    r := if err.Some? then Err(err.value) else Ok(out);
  }

  /** Substitute variables from `env`. */
  function InterpolateEnv(input: string, env: Env): Result<string> {
    Interpolation(input, Interpolate, env)
  }

  /** Rewrite `$$` to `$`, failing on any genuine reference. The variable
      source is never consulted, so an empty one stands for any. */
  function UnescapeStr(input: string): Result<string> {
    Interpolation(input, Unescape, map[])
  }

  /** Check the syntax only. */
  function ValidateStr(input: string): Result<()> {
    match Interpolation(input, Validate, map[])
    case Ok(_) => Ok(())
    case Err(e) => Err(e)
  }

  /** Escape a literal: every `$` is doubled. */
  function EscapeStr(s: string): (r: string)
    ensures |r| == |s| + Count(s, '$')
  {
    if s == [] then ""
    else if s[0] == '$' then "$$" + EscapeStr(s[1..])
    else [s[0]] + EscapeStr(s[1..])
  }

  function Count(s: string, c: char): nat {
    if s == [] then 0 else (if s[0] == c then 1 else 0) + Count(s[1..], c)
  }

  // ---------------------------------------------------------------------
  // The scanner copies every character: cutting into pieces loses nothing.

  lemma PrefixOfConcat(x: string, y: string)
    ensures (x + y)[..|x|] == x && (x + y)[|x|..] == y
  {
  }

  lemma SpellUpToBrace(t: string, head: string, d: string, j: nat)
    requires t == head + d && j < |d| && d[j] == '}'
    ensures t[..|head| + j + 1] == head + d[..j] + "}"
  {
    assert d == d[..j] + "}" + d[j + 1..];
    assert t == (head + d[..j] + "}") + d[j + 1..];
    PrefixOfConcat(head + d[..j] + "}", d[j + 1..]);
  }

  lemma AfterNameSpells(name: string, after: string)
    requires AfterName(name, after).Some?
    ensures after[..AfterName(name, after).value.1]
         == FallbackText(AfterName(name, after).value.0.fallback) + "}"
  {
    if |after| >= 2 && after[0] == ':' && after[1] == '-' {
      var d := after[2..];
      assert after == ":-" + d;
      SpellUpToBrace(after, ":-", d, DefaultEnd(d).value);
    } else if |after| >= 1 && after[0] == '-' {
      var d := after[1..];
      assert after == "-" + d;
      SpellUpToBrace(after, "-", d, DefaultEnd(d).value);
    } else {
      SpellUpToBrace(after, "", after, 0);
    }
  }

  lemma SlicePrefix(t: string, k: nat, m: nat)
    requires 1 + k + m <= |t|
    ensures t[..1 + k] == t[..1] + t[1..][..k]
    ensures t[..1 + k + m] == t[..1] + t[1..][..k] + t[1..][k..][..m]
  {
  }

  /** The braced alternative consumes `{`, the name, the default part and
      the closing brace, in that order. */
  lemma BracedMatchSpells(t: string, p: Piece, m: nat)
    requires BracedMatch(t) == Some((p, m))
    ensures m <= |t| && t[..m] == Body(p)
  {
    var u := t[1..];
    var k := NameLength(u);
    var name := u[..k];
    var after := u[k..];
    var r := AfterName(name, after);
    assert r.Some? && r.value.0 == p;
    var j := r.value.1;
    assert m == 1 + k + j;
    assert Body(p) == "{" + name + after[..j] by {
      AfterNameSpells(name, after);
    }
    assert t[..m] == "{" + name + after[..j] by {
      SlicePrefix(t, k, j);
      assert t[..1] == "{";
    }
  }

  /** The characters a piece consumes are exactly its spelling. */
  lemma NextPieceSpells(s: string, p: Piece, n: nat)
    requires s != [] && NextPiece(s) == (p, n)
    ensures n <= |s| && s[..n] == Spell(p)
  {
    if s[0] == '$' {
      var t := s[1..];
      var k := NameLength(t);
      assert s[..1] == "$";
      if k >= 2 {
        SlicePrefix(s, k, 0);
      } else if BracedMatch(t).Some? {
        var m := BracedMatch(t).value;
        BracedMatchSpells(t, m.0, m.1);
        SlicePrefix(s, m.1, 0);
      }
    }
  }

  /** The first piece of a non-empty string, then the pieces of the rest. */
  lemma PiecesStep(s: string, p: Piece, n: nat)
    requires s != [] && NextPiece(s) == (p, n)
    ensures n <= |s| && Pieces(s) == [p] + Pieces(s[n..])
  {
  }

  lemma SpellAllCons(p: Piece, rest: seq<Piece>)
    ensures SpellAll([p] + rest) == Spell(p) + SpellAll(rest)
  {
    assert ([p] + rest)[1..] == rest;
  }

  lemma SplitJoin(s: string, n: nat)
    requires n <= |s|
    ensures s[..n] + s[n..] == s
  {
  }

  lemma {:induction false} PiecesSpellInput(s: string)
    ensures SpellAll(Pieces(s)) == s
    decreases |s|
  {
    if s != [] {
      var (p, n) := NextPiece(s);
      var rest := s[n..];
      var head := Spell(p);
      assert SpellAll(Pieces(s)) == head + SpellAll(Pieces(rest)) by {
        PiecesStep(s, p, n);
        SpellAllCons(p, Pieces(rest));
      }
      assert head == s[..n] by {
        NextPieceSpells(s, p, n);
      }
      PiecesSpellInput(rest);
      SplitJoin(s, n);
    }
  }

  // ---------------------------------------------------------------------
  // Literal text and escaped dollars.

  /** A character other than `$` is a piece of its own. */
  lemma TextStep(s: string, mode: Mode, env: Env, input: string)
    requires s != [] && s[0] != '$'
    ensures Expand(Pieces(s), mode, env, input) == Combine(Outcome([s[0]], None), Expand(Pieces(s[1..]), mode, env, input))
  {
    assert NextPiece(s) == (Text(s[0]), 1);
    ExpandStep(s, Text(s[0]), 1, mode, env, input);
  }

  lemma {:induction false} ExpandNoDollar(s: string, mode: Mode, env: Env, input: string)
    requires '$' !in s
    ensures Expand(Pieces(s), mode, env, input) == Outcome(s, None)
    decreases |s|
  {
    if s != [] {
      assert s[0] != '$' by { assert s[0] in s; }
      TextStep(s, mode, env, input);
      assert '$' !in s[1..] by { assert forall c :: c in s[1..] ==> c in s; }
      ExpandNoDollar(s[1..], mode, env, input);
      HeadTail(s);
    }
  }


  /** A string with no `$` is returned unchanged by every mode, whatever the
      variable source holds. */
  lemma NoDollarUnchanged(s: string, mode: Mode, env: Env)
    requires '$' !in s
    ensures Interpolation(s, mode, env) == Ok(s)
  {
    ExpandNoDollar(s, mode, env, s);
  }

  lemma DollarDollarPiece(t: string)
    ensures NextPiece("$$" + t) == (Dollar, 2)
  {
    var s := "$$" + t;
    assert s[1..] == "$" + t;
    assert NameLength(s[1..]) == 0;
  }

  /** `$$` becomes a single `$` in every mode, without a lookup: `$$X`
      gives `$X`, `$${escaped}` gives `${escaped}`. */
  lemma EscapedDollarIsLiteral(s: string, mode: Mode, env: Env)
    requires '$' !in s
    ensures Interpolation("$$" + s, mode, env) == Ok("$" + s)
  {
    var x := "$$" + s;
    DollarDollarPiece(s);
    ExpandStep(x, Dollar, 2, mode, env, x);
    assert x[2..] == s;
    ExpandNoDollar(s, mode, env, x);
  }

  lemma HeadTail(s: string)
    requires s != []
    ensures [s[0]] + s[1..] == s
  {
  }

  lemma {:induction false} ExpandEscaped(s: string, mode: Mode, env: Env, input: string)
    ensures Expand(Pieces(EscapeStr(s)), mode, env, input) == Outcome(s, None)
    decreases |s|
  {
    if s != [] {
      var e := EscapeStr(s);
      var rest := EscapeStr(s[1..]);
      ExpandEscaped(s[1..], mode, env, input);
      if s[0] == '$' {
        assert e == "$$" + rest;
        DollarDollarPiece(rest);
        ExpandStep(e, Dollar, 2, mode, env, input);
        assert e[2..] == rest;
      } else {
        assert e == [s[0]] + rest;
        TextStep(e, mode, env, input);
        assert e[1..] == rest;
      }
      HeadTail(s);
    }
  }

  /** Escaping is undone by every mode: unescaping the escaped string gives
      the original back, validation accepts it, and interpolation with any
      variable source returns the original too. */
  lemma EscapeRoundTrip(s: string, mode: Mode, env: Env)
    ensures Interpolation(EscapeStr(s), mode, env) == Ok(s)
    ensures UnescapeStr(EscapeStr(s)) == Ok(s)
    ensures ValidateStr(EscapeStr(s)) == Ok(())
  {
    ExpandEscaped(s, mode, env, EscapeStr(s));
    ExpandEscaped(s, Unescape, map[], EscapeStr(s));
    ExpandEscaped(s, Validate, map[], EscapeStr(s));
  }

  // ---------------------------------------------------------------------
  // Errors: which pieces fail, and which error is surfaced.

  predicate NoUnknown(ps: seq<Piece>) {
    forall i :: 0 <= i < |ps| ==> !ps[i].Unknown?
  }

  predicate NoReference(ps: seq<Piece>) {
    forall i :: 0 <= i < |ps| ==> !ps[i].Reference?
  }

  /** The scan records an error exactly when some match does. */
  lemma {:induction false} ExpandErrorFree(ps: seq<Piece>, mode: Mode, env: Env, input: string)
    ensures Expand(ps, mode, env, input).err.None?
        <==> forall i :: 0 <= i < |ps| ==> Replace(ps[i], mode, env, input).err.None?
  {
    if ps != [] {
      ExpandErrorFree(ps[1..], mode, env, input);
      assert forall i :: 1 <= i < |ps| ==> ps[i] == ps[1..][i - 1];
    }
  }

  /** Last error wins: the surfaced error is the one of the last failing
      match, whatever failed before it. */
  lemma {:induction false} LastErrorWins(ps: seq<Piece>, mode: Mode, env: Env, input: string)
    requires Expand(ps, mode, env, input).err.Some?
    ensures exists k :: (0 <= k < |ps|
        && Replace(ps[k], mode, env, input).err == Expand(ps, mode, env, input).err
        && (forall j :: k < j < |ps| ==> Replace(ps[j], mode, env, input).err.None?))
  {
    var rest := Expand(ps[1..], mode, env, input);
    if rest.err.Some? {
      LastErrorWins(ps[1..], mode, env, input);
      var k :| 0 <= k < |ps[1..]|
        && Replace(ps[1..][k], mode, env, input).err == rest.err
        && forall j :: k < j < |ps[1..]| ==> Replace(ps[1..][j], mode, env, input).err.None?;
      assert forall j :: k + 1 < j < |ps| ==> ps[j] == ps[1..][j - 1];
      assert Replace(ps[k + 1], mode, env, input).err == Expand(ps, mode, env, input).err;
    } else {
      ExpandErrorFree(ps[1..], mode, env, input);
      assert forall j :: 0 < j < |ps| ==> ps[j] == ps[1..][j - 1];
      assert Replace(ps[0], mode, env, input).err == Expand(ps, mode, env, input).err;
    }
  }

  /** Validation fails exactly when some `$` starts no valid form, and then
      with the syntax error for the whole input. */
  lemma ValidateAcceptsIff(s: string)
    ensures ValidateStr(s).Ok? <==> NoUnknown(Pieces(s))
    ensures ValidateStr(s).Err? ==> ValidateStr(s).error == InterpolateInvalidSyntax(s)
  {
    var ps := Pieces(s);
    ExpandErrorFree(ps, Validate, map[], s);
    if Expand(ps, Validate, map[], s).err.Some? {
      LastErrorWins(ps, Validate, map[], s);
    }
  }

  /** Unescaping succeeds exactly when the input holds nothing but text and
      `$$`. */
  lemma UnescapeAcceptsIff(s: string)
    ensures UnescapeStr(s).Ok? <==> NoUnknown(Pieces(s)) && NoReference(Pieces(s))
  {
    ExpandErrorFree(Pieces(s), Unescape, map[], s);
  }

  lemma {:induction false} ExpandValidateIgnoresEnv(ps: seq<Piece>, env: Env, input: string)
    ensures Expand(ps, Validate, env, input) == Expand(ps, Validate, map[], input)
  {
    if ps != [] {
      ExpandValidateIgnoresEnv(ps[1..], env, input);
    }
  }

  /** Validation looks a variable up and throws the answer away: its result
      is the same whatever the variable source holds. */
  lemma ValidateIgnoresEnv(s: string, env: Env)
    ensures Interpolation(s, Validate, env) == Interpolation(s, Validate, map[])
  {
    ExpandValidateIgnoresEnv(Pieces(s), env, s);
  }

  lemma {:induction false} ExpandWithoutReferences(ps: seq<Piece>, m1: Mode, e1: Env, m2: Mode, e2: Env, input: string)
    requires NoReference(ps)
    ensures Expand(ps, m1, e1, input) == Expand(ps, m2, e2, input)
  {
    if ps != [] {
      assert !ps[0].Reference?;
      ExpandWithoutReferences(ps[1..], m1, e1, m2, e2, input);
    }
  }

  /** The three modes agree because they share one scan: what unescapes
      also interpolates, to the same text, under any variable source; what
      unescapes or interpolates also validates; and a string that validates
      but does not unescape fails with `InterpolationDisabled`. */
  lemma UnescapeAgrees(s: string, env: Env)
    ensures UnescapeStr(s).Ok? ==> InterpolateEnv(s, env) == UnescapeStr(s) && ValidateStr(s).Ok?
  {
    UnescapeAcceptsIff(s);
    ValidateAcceptsIff(s);
    if UnescapeStr(s).Ok? {
      ExpandWithoutReferences(Pieces(s), Unescape, map[], Interpolate, env, s);
    }
  }

  /** Whatever interpolates also validates. */
  lemma InterpolateValidates(s: string, env: Env)
    ensures InterpolateEnv(s, env).Ok? ==> ValidateStr(s).Ok?
  {
    var ps := Pieces(s);
    ValidateAcceptsIff(s);
    if InterpolateEnv(s, env).Ok? {
      ExpandErrorFree(ps, Interpolate, env, s);
      assert forall i :: 0 <= i < |ps| ==> Replace(ps[i], Interpolate, env, s).err.None?;
    }
  }

  /** On a syntactically valid string, unescaping can only fail because of
      a reference, and then reports the whole input. */
  lemma UnescapeRefusesReferences(s: string)
    ensures ValidateStr(s).Ok? && UnescapeStr(s).Err? ==> UnescapeStr(s) == Err(InterpolationDisabled(s))
  {
    ValidateAcceptsIff(s);
    if ValidateStr(s).Ok? && UnescapeStr(s).Err? {
      LastErrorWins(Pieces(s), Unescape, map[], s);
    }
  }

  /** A string that validates interpolates without error as soon as every
      reference without a default names a set variable. */
  lemma DefinedVariablesSuffice(s: string, env: Env)
    requires ValidateStr(s).Ok?
    requires forall i :: 0 <= i < |Pieces(s)| && Pieces(s)[i].Reference? && Pieces(s)[i].fallback.None?
               ==> Pieces(s)[i].name in env
    ensures InterpolateEnv(s, env).Ok?
  {
    ValidateAcceptsIff(s);
    ExpandErrorFree(Pieces(s), Interpolate, env, s);
  }

  // ---------------------------------------------------------------------
  // References and defaults.

  /** The name of a reference is the whole identifier run that follows. */
  lemma NameLengthOf(n: string, t: string)
    requires IsName(n) && (t == [] || !IsIdentChar(t[0]))
    ensures NameLength(n + t) == |n| && (n + t)[..|n|] == n && (n + t)[|n|..] == t
  {
    var x := (n + t)[1..];
    assert x == n[1..] + t;
    PrefixOfConcat(n, t);
  }

  /** `$NAME` is replaced by the variable's value; an unset variable with no
      default is an error naming it. Text after the name is kept. */
  lemma BareReference(n: string, t: string, env: Env)
    requires IsName(n) && '$' !in t && (t == [] || !IsIdentChar(t[0]))
    ensures InterpolateEnv("$" + n + t, env)
         == if n in env then Ok(env[n] + t) else Err(InterpolateUndefinedVariable(n))
  {
    var s := "$" + n + t;
    var k := |n| + 1;
    assert s[1..] == n + t;
    NameLengthOf(n, t);
    assert NextPiece(s) == (Reference(n, false, None), k);
    assert s[k..] == t;
    ReferenceThenText(s, n, false, k, t, env);
  }

  /** Where the parts of `${NAME...` sit. */
  lemma BracedLayout(n: string, after: string, m: nat, k: nat)
    requires m <= |after| && k == m + |n| + 2
    ensures "${" + n + after == "$" + ("{" + (n + after))
    ensures ("${" + n + after)[k..] == after[m..]
  {
    assert "${" + n + after == "$" + ("{" + (n + after));
    assert ("${" + n + after)[|n| + 2..] == after;
  }

  /** Inside braces the name is the whole identifier run, and what follows
      it decides the match. */
  lemma BracedMatchOf(n: string, after: string, p: Piece, m: nat, k: nat)
    requires IsName(n) && after != [] && !IsIdentChar(after[0])
    requires AfterName(n, after) == Some((p, m)) && k == m + |n| + 1
    ensures BracedMatch("{" + (n + after)) == Some((p, k))
  {
    assert ("{" + (n + after))[1..] == n + after;
    NameLengthOf(n, after);
  }

  /** A `$` followed by a successful braced match, and no bare name. */
  lemma DollarBraced(u: string, p: Piece, m: nat, k: nat)
    requires BracedMatch("{" + u) == Some((p, m)) && k == m + 1
    ensures NextPiece("$" + ("{" + u)) == (p, k)
  {
    assert ("$" + ("{" + u))[1..] == "{" + u;
    assert NameLength("{" + u) == 0;
  }

  /** A `${` followed by a name is decided by what follows the name; the
      match takes `k` characters and leaves the rest of `after`. */
  lemma BracedPiece(n: string, after: string, p: Piece, m: nat, k: nat)
    requires IsName(n) && after != [] && !IsIdentChar(after[0])
    requires AfterName(n, after) == Some((p, m)) && k == m + |n| + 2
    ensures NextPiece("${" + n + after) == (p, k)
    ensures ("${" + n + after)[k..] == after[m..]
  {
    var u := n + after;
    var j := m + |n| + 1;
    BracedLayout(n, after, m, k);
    BracedMatchOf(n, after, p, m, j);
    DollarBraced(u, p, j, k);
  }

  lemma ClosingBrace(x: string, t: string)
    ensures x + "}" + t == x + ("}" + t) && ("}" + t)[1..] == t
  {
  }

  /** A reference without default followed by plain text. */
  lemma ReferenceThenText(s: string, n: string, braced: bool, k: nat, t: string, env: Env)
    requires s != [] && NextPiece(s) == (Reference(n, braced, None), k) && s[k..] == t && '$' !in t
    ensures InterpolateEnv(s, env)
         == if n in env then Ok(env[n] + t) else Err(InterpolateUndefinedVariable(n))
  {
    ExpandStep(s, Reference(n, braced, None), k, Interpolate, env, s);
    ExpandNoDollar(t, Interpolate, env, s);
  }

  /** `${NAME}` behaves like `$NAME`, and the closing brace ends the name. */
  lemma BracedReference(n: string, t: string, env: Env)
    requires IsName(n) && '$' !in t
    ensures InterpolateEnv("${" + n + "}" + t, env)
         == if n in env then Ok(env[n] + t) else Err(InterpolateUndefinedVariable(n))
  {
    var after := "}" + t;
    var s := "${" + n + after;
    var r := Reference(n, true, None);
    var k := |n| + 3;
    ClosingBrace("${" + n, t);
    assert AfterName(n, after) == Some((r, 1));
    BracedPiece(n, after, r, 1, k);
    ReferenceThenText(s, n, true, k, t, env);
  }

  /** The greedy default runs to the last `}` of a newline-free default. */
  lemma DefaultEndIsLastBrace(d: string)
    requires '\n' !in d
    ensures DefaultEnd(d + "}") == Some(|d|) && (d + "}")[..|d|] == d
  {
    var x := d + "}";
    assert x[|d|] == '}';
    forall i | 0 <= i < |x|
      ensures x[i] != '\n'
    {
      if i < |d| {
        assert x[i] == d[i] && d[i] in d;
      }
    }
    assert LineLength(x) == |x|;
    assert DefaultEnd(x).Some?;
    assert DefaultEnd(x).value == |d|;
    assert x[..|d|] == d;
  }

  /** The separator and the default as the scanner sees them. */
  lemma DefaultLayout(sep: string, d: string)
    ensures (sep + d + "}")[|sep|..] == d + "}"
    ensures "${" + sep + d + "}" == "${" + (sep + d + "}")
  {
    assert (sep + d + "}")[|sep|..] == d + "}";
  }

  /** The text after the name in `${NAME-d}` or `${NAME:-d}`. */
  lemma AfterNameDefault(n: string, colon: bool, d: string, m: nat)
    requires '\n' !in d && m == |d| + (if colon then 3 else 2)
    ensures AfterName(n, (if colon then ":-" else "-") + d + "}")
         == Some((Reference(n, true, Some(Fallback(colon, d))), m))
  {
    var sep := if colon then ":-" else "-";
    DefaultLayout(sep, d);
    DefaultEndIsLastBrace(d);
  }

  lemma WholeDefault(n: string, after: string, m: nat, k: nat)
    requires m == |after| && k == m + |n| + 2
    ensures |"${" + n + after| == k
  {
  }

  /** An input that is one piece is that piece's replacement. */
  lemma SinglePiece(s: string, p: Piece, k: nat, mode: Mode, env: Env)
    requires s != [] && NextPiece(s) == (p, k) && k == |s|
    ensures Interpolation(s, mode, env) == ToResult(Replace(p, mode, env, s))
  {
    ExpandStep(s, p, k, mode, env, s);
    assert s[k..] == [];
    assert Replace(p, mode, env, s).out + "" == Replace(p, mode, env, s).out;
  }

  /** The replacement of a reference with a default never fails. */
  lemma ReplaceDefault(n: string, colon: bool, d: string, env: Env, s: string)
    ensures ToResult(Replace(Reference(n, true, Some(Fallback(colon, d))), Interpolate, env, s))
         == Ok(if n in env && (!colon || env[n] != "") then env[n] else d)
  {
  }

  /** `${NAME-d}` yields the value whenever the variable is set, even to the
      empty string; `${NAME:-d}` also falls back when it is set but empty.
      The default is inserted verbatim: a `$` or `}` in it is not scanned. */
  lemma DefaultReference(n: string, colon: bool, d: string, env: Env)
    requires IsName(n) && '\n' !in d
    ensures InterpolateEnv("${" + n + (if colon then ":-" else "-") + d + "}", env)
         == Ok(if n in env && (!colon || env[n] != "") then env[n] else d)
  {
    var sep := if colon then ":-" else "-";
    var after := sep + d + "}";
    var s := "${" + n + after;
    assert s == "${" + n + sep + d + "}";
    var m := |after|;
    var k := m + |n| + 2;
    AfterNameDefault(n, colon, d, m);
    var p := Reference(n, true, Some(Fallback(colon, d)));
    BracedPiece(n, after, p, m, k);
    WholeDefault(n, after, m, k);
    SinglePiece(s, p, k, Interpolate, env);
    ReplaceDefault(n, colon, d, env, s);
  }

  // ---------------------------------------------------------------------
  // The documented examples.

  /** A `$` at the start that falls through to the unknown alternative
      (followed by a character that starts no valid form, or by nothing at
      all) makes the whole string invalid in every mode, when no later `$`
      can record another error. */
  lemma InvalidAtStart(s: string, mode: Mode, env: Env)
    requires s != [] && NextPiece(s).0.Unknown? && '$' !in s[NextPiece(s).1..]
    ensures Interpolation(s, mode, env) == Err(InterpolateInvalidSyntax(s))
  {
    var (p, k) := NextPiece(s);
    ExpandStep(s, p, k, mode, env, s);
    ExpandNoDollar(s[k..], mode, env, s);
  }

  /** A lone `$`, and `$}`, are syntax errors in every mode. */
  lemma LoneDollarIsInvalid(mode: Mode, env: Env)
    ensures Interpolation("$", mode, env) == Err(InterpolateInvalidSyntax("$"))
    ensures Interpolation("$}", mode, env) == Err(InterpolateInvalidSyntax("$}"))
  {
    assert NextPiece("$") == (Unknown([]), 1) by {
      assert "$"[1..] == [];
    }
    InvalidAtStart("$", mode, env);
    assert NextPiece("$}") == (Unknown("}"), 2) by {
      assert "$}"[1..] == "}";
      assert NameLength("}") == 0;
    }
    assert "$}"[2..] == [];
    InvalidAtStart("$}", mode, env);
  }

  /** A `${` that no braced form completes is a syntax error. */
  lemma UnknownBrace(s: string, mode: Mode, env: Env)
    requires |s| >= 2 && s[0] == '$' && s[1] == '{' && BracedMatch(s[1..]).None? && '$' !in s[2..]
    ensures Interpolation(s, mode, env) == Err(InterpolateInvalidSyntax(s))
  {
    assert NameLength(s[1..]) == 0;
    InvalidAtStart(s, mode, env);
  }

  lemma NoNameAfterBrace(s: string, mode: Mode, env: Env)
    requires |s| >= 2 && s[0] == '$' && s[1] == '{' && '$' !in s[2..]
    requires s[2..] == [] || !IsIdentStart(s[2])
    ensures Interpolation(s, mode, env) == Err(InterpolateInvalidSyntax(s))
  {
    assert s[1..][1..] == s[2..];
    UnknownBrace(s, mode, env);
  }

  lemma BadCharAfterName(n: string, c: char, t: string, mode: Mode, env: Env)
    requires IsName(n) && !IsIdentChar(c) && c != ':' && c != '-' && c != '}'
    requires '$' !in n && c != '$' && '$' !in t
    ensures Interpolation("${" + n + [c] + t, mode, env) == Err(InterpolateInvalidSyntax("${" + n + [c] + t))
  {
    var after := [c] + t;
    var s := "${" + n + after;
    assert s == "${" + n + [c] + t;
    assert s[1..][1..] == n + after;
    NameLengthOf(n, after);
    assert AfterName(n, after).None?;
    assert '$' !in s[2..] by {
      assert s[2..] == n + after;
    }
    UnknownBrace(s, mode, env);
  }

  lemma SpaceAfterName(mode: Mode, env: Env)
    ensures Interpolation("${foo }", mode, env) == Err(InterpolateInvalidSyntax("${foo }"))
  {
    var n := "foo";
    assert IsName(n);
    assert "${" + n + [' '] + "}" == "${foo }";
    BadCharAfterName(n, ' ', "}", mode, env);
  }

  /** A space where the name should be, as in `${ }` and `${ foo}`. */
  lemma SpaceInsteadOfName(t: string, mode: Mode, env: Env)
    requires '$' !in t
    ensures Interpolation("${ " + t, mode, env) == Err(InterpolateInvalidSyntax("${ " + t))
  {
    var s := "${ " + t;
    assert s[2..] == " " + t;
    NoNameAfterBrace(s, mode, env);
  }

  lemma BangAfterName(mode: Mode, env: Env)
    ensures Interpolation("${foo!}", mode, env) == Err(InterpolateInvalidSyntax("${foo!}"))
  {
    var n := "foo";
    assert IsName(n);
    assert "${" + n + ['!'] + "}" == "${foo!}";
    BadCharAfterName(n, '!', "}", mode, env);
  }

  /** Names need two characters: `$X` is a syntax error, not a reference. */
  lemma OneCharacterNameIsInvalid(mode: Mode, env: Env)
    ensures Interpolation("$X", mode, env) == Err(InterpolateInvalidSyntax("$X"))
  {
    var s := "$X";
    assert s[1..] == "X" && s[1..][1..] == [];
    InvalidAtStart(s, mode, env);
  }

  /** A `$` before a newline matches no alternative and is kept as text. */
  lemma DollarBeforeNewline(mode: Mode, env: Env)
    ensures Interpolation("$\n", mode, env) == Ok("$\n")
  {
    var s := "$\n";
    assert s[1..] == "\n";
    assert NextPiece(s) == (Text('$'), 1);
    ExpandStep(s, Text('$'), 1, mode, env, s);
    ExpandNoDollar(s[1..], mode, env, s);
    assert "$" + "\n" == s;
  }

  /** An unset variable without a default is an error naming it. */
  lemma UndefinedExample(env: Env)
    requires "NOSUCH" !in env
    ensures InterpolateEnv("$NOSUCH", env) == Err(InterpolateUndefinedVariable("NOSUCH"))
  {
    BareReference("NOSUCH", "", env);
    assert "$" + "NOSUCH" + "" == "$NOSUCH";
  }

  /** The default is greedy: it runs to the last `}` of the line. */
  lemma GreedyDefault(n: string, env: Env)
    requires IsName(n) && n !in env
    ensures InterpolateEnv("${" + n + "-x}y}", env) == Ok("x}y")
  {
    var d := "x}y";
    assert '\n' !in d;
    DefaultReference(n, false, d, env);
    assert "${" + n + (if false then ":-" else "-") + d + "}" == "${" + n + "-x}y}";
  }

  /** `$FOO` and `${FOO}` are each one reference. */
  lemma ReferencePieces()
    ensures Pieces("$FOO") == [Reference("FOO", false, None)]
    ensures Pieces("${FOO}") == [Reference("FOO", true, None)]
  {
    var foo := "$FOO";
    assert foo[1..] == "FOO" + "";
    NameLengthOf("FOO", "");
    assert NextPiece(foo) == (Reference("FOO", false, None), 4);
    assert foo[4..] == [];
    var braced := "${FOO}";
    assert AfterName("FOO", "}") == Some((Reference("FOO", true, None), 1));
    BracedPiece("FOO", "}", Reference("FOO", true, None), 1, 6);
    assert "${" + "FOO" + "}" == braced;
    assert braced[6..] == [];
  }

  /** A lone `$NAME` is valid syntax that unescaping refuses. */
  lemma BareReferenceModes(n: string)
    requires IsName(n)
    ensures UnescapeStr("$" + n) == Err(InterpolationDisabled("$" + n))
    ensures ValidateStr("$" + n) == Ok(())
  {
    var s := "$" + n;
    var k := |n| + 1;
    var p := Reference(n, false, None);
    assert s[1..] == n + "";
    NameLengthOf(n, "");
    assert NextPiece(s) == (p, k);
    SinglePiece(s, p, k, Unescape, map[]);
    SinglePiece(s, p, k, Validate, map[]);
  }

  /** Unescaping refuses a reference, and validation accepts both forms. */
  lemma ReferenceExamples()
    ensures UnescapeStr("$FOO") == Err(InterpolationDisabled("$FOO"))
    ensures ValidateStr("$FOO").Ok? && ValidateStr("${FOO}").Ok?
  {
    ReferencePieces();
  }

  /** Last error wins: a syntax error after an undefined variable is the
      one reported. */
  lemma LastErrorIsSyntax(n: string, env: Env)
    requires IsName(n) && n !in env
    ensures InterpolateEnv("$" + n + " $", env) == Err(InterpolateInvalidSyntax("$" + n + " $"))
  {
    var s := "$" + n + " $";
    assert s[1..] == n + " $";
    NameLengthOf(n, " $");
    assert NextPiece(s) == (Reference(n, false, None), |n| + 1);
    ExpandStep(s, Reference(n, false, None), |n| + 1, Interpolate, env, s);
    var r := s[|n| + 1..];
    assert r == " $";
    assert r[1..] == "$";
    assert NextPiece(r) == (Text(' '), 1);
    ExpandStep(r, Text(' '), 1, Interpolate, env, s);
    var e := r[1..];
    assert e[1..] == [];
    assert NextPiece(e) == (Unknown([]), 1);
    ExpandStep(e, Unknown([]), 1, Interpolate, env, s);
  }

  /** Last error wins: an undefined variable after a syntax error is the
      one reported. */
  lemma LastErrorIsUndefined(n: string, env: Env)
    requires IsName(n) && n !in env
    ensures InterpolateEnv("$ $" + n, env) == Err(InterpolateUndefinedVariable(n))
  {
    var s := "$ $" + n;
    assert s[1..] == " $" + n;
    assert NextPiece(s) == (Unknown(" "), 2);
    ExpandStep(s, Unknown(" "), 2, Interpolate, env, s);
    var r := s[2..];
    assert r == "$" + n;
    assert r[1..] == n + "";
    NameLengthOf(n, "");
    assert NextPiece(r) == (Reference(n, false, None), |n| + 1);
    ExpandStep(r, Reference(n, false, None), |n| + 1, Interpolate, env, s);
    assert r[|n| + 1..] == [];
  }
}
