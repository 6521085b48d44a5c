/** Permissions on a device mapped into a container: read, write and
    mknod, written as the letters `r`, `w`, `m` in that order. Reading takes
    the longest leading run of the form `r?w?m?` and ignores the rest, so it
    accepts every string. */
module Permissions {
  import opened Errors

  datatype DevicePermissions = DevicePermissions(read: bool, write: bool, mknod: bool)

  /** Everything allowed. */
  function Default(): (p: DevicePermissions)
    ensures p.read && p.write && p.mknod
  {
    DevicePermissions(true, true, true)
  }

  /** The eight texts that name a permission set: a subsequence of `rwm`. */
  predicate IsFlagText(s: string) {
    s in {"", "r", "w", "m", "rw", "rm", "wm", "rwm"}
  }

  function Flag(b: bool, c: char): string {
    if b then [c] else ""
  }

  function Format(p: DevicePermissions): (s: string)
    ensures IsFlagText(s)
    ensures |s| == |Flag(p.read, 'r')| + |Flag(p.write, 'w')| + |Flag(p.mknod, 'm')|
    ensures ('r' in s <==> p.read) && ('w' in s <==> p.write) && ('m' in s <==> p.mknod)
  {
    var s := Flag(p.read, 'r') + Flag(p.write, 'w') + Flag(p.mknod, 'm');
    assert s == if p.read then
                  if p.write then (if p.mknod then "rwm" else "rw") else (if p.mknod then "rm" else "r")
                else
                  if p.write then (if p.mknod then "wm" else "w") else (if p.mknod then "m" else "");
    s
  }

  /** Whether `s` starts with the letter `c`, and what follows it if so. */
  function Take(s: string, c: char): (r: (bool, string))
    ensures r.0 <==> (s != [] && s[0] == c)
    ensures r.1 == if r.0 then s[1..] else s
  {
    if s != [] && s[0] == c then (true, s[1..]) else (false, s)
  }

  /** The anchored pattern `^(r)?(w)?(m)?`: each optional letter is taken
      when it is next. The pattern matches every string, so this never
      fails. */
  function Parse(s: string): (r: Result<DevicePermissions>)
    ensures r.Ok?
  {
    var (read, t) := Take(s, 'r');
    var (write, u) := Take(t, 'w');
    var (mknod, _) := Take(u, 'm');
    Ok(DevicePermissions(read, write, mknod))
  }

  // ---------------------------------------------------------------------
  // Laws.

  /** The default renders as `rwm`. */
  lemma DefaultIsRwm()
    ensures Format(Default()) == "rwm"
  {
  }

  /** Reading what was written gives the same permissions, for all eight
      combinations. */
  lemma ParseFormat(p: DevicePermissions)
    ensures Parse(Format(p)) == Ok(p)
  {
  }

  /** A flag text reads and writes back as itself. */
  lemma FlagTextIsFixed(t: string)
    requires IsFlagText(t)
    ensures Format(Parse(t).value) == t
  {
  }

  /** Reading looks no further than one character past the matched prefix. */
  lemma ParseLooksAtMatchAndNext(s: string, j: int)
    requires |Format(Parse(s).value)| < j <= |s|
    ensures Parse(s[..j]) == Parse(s)
  {
    var t := s[..j];
    assert t[0] == s[0];
    if j > 1 {
      assert t[1] == s[1];
    }
    if j > 2 {
      assert t[2] == s[2];
    }
  }

  /** Writing what was read gives the matched prefix of the input: a flag
      text, a prefix of `s`, and no longer prefix of `s` is a flag text. */
  lemma {:induction false} FormatParse(s: string)
    ensures var f := Format(Parse(s).value);
      IsFlagText(f) && f <= s && forall j :: |f| < j <= |s| ==> !IsFlagText(s[..j])
  {
    var f := Format(Parse(s).value);
    forall j | |f| < j <= |s|
      ensures !IsFlagText(s[..j])
    {
      ParseLooksAtMatchAndNext(s, j);
      if IsFlagText(s[..j]) {
        FlagTextIsFixed(s[..j]);
      }
    }
  }

  /** Reading is idempotent through writing. */
  lemma ParseIdempotent(s: string)
    ensures Parse(Format(Parse(s).value)) == Parse(s)
  {
    ParseFormat(Parse(s).value);
  }

  /** Characters after the matched prefix are ignored: the empty string and
      `x` both read as no permission at all. */
  lemma ParseIgnoresTheRest()
    ensures Parse("") == Ok(DevicePermissions(false, false, false))
    ensures Parse("x") == Ok(DevicePermissions(false, false, false))
    ensures Parse("rwmx") == Ok(Default())
  {
  }

  /** Each single permission dropped from the default. */
  lemma DroppedFlagExamples()
    ensures Format(DevicePermissions(false, true, true)) == "wm"
    ensures Format(DevicePermissions(true, false, true)) == "rm"
    ensures Format(DevicePermissions(true, true, false)) == "rw"
  {
  }
}
