/** prelude.rs: the textual package identity `Nevra`, its grammar, its text form and
    its EVR. */
module Prelude {
  import opened Wrappers
  import opened Text
  import opened Cache

  /** Name, optional epoch (as text), version, release and architecture. */
  datatype Nevra = Nevra(name: string, epoch: Option<string>, version: string, release: string, arch: string)

  /** The package-name class `[^:(/=<> ]`. */
  predicate NameChar(c: char) {
    c != ':' && c != '(' && c != '/' && c != '=' && c != '<' && c != '>' && c != ' '
  }

  /** The version and release class `[^-:(/=<> ]`. */
  predicate VersionChar(c: char) { c != '-' && NameChar(c) }

  /** The arch class `[^-:.(/=<> ]`. */
  predicate ArchChar(c: char) { c != '.' && VersionChar(c) }

  predicate AllNameChars(s: string) { forall i | 0 <= i < |s| :: NameChar(s[i]) }
  predicate AllVersionChars(s: string) { forall i | 0 <= i < |s| :: VersionChar(s[i]) }
  predicate AllArchChars(s: string) { forall i | 0 <= i < |s| :: ArchChar(s[i]) }

  /** Every field is a non-empty run of its class, and an epoch is a non-empty run of
      decimal digits: the fields the NEVRA pattern can capture. */
  predicate WellFormed(n: Nevra) {
    && |n.name| > 0 && AllNameChars(n.name)
    && (n.epoch.Some? ==> |n.epoch.value| > 0 && AllDigits(n.epoch.value))
    && |n.version| > 0 && AllVersionChars(n.version)
    && |n.release| > 0 && AllVersionChars(n.release)
    && |n.arch| > 0 && AllArchChars(n.arch)
  }

  /** The text between the name and the release: `[epoch:]version`. */
  function EpochVersion(epoch: Option<string>, version: string): string {
    if epoch.Some? then Joined(epoch.value, ':', version) else version
  }

  /** `to_string`: `name-[epoch:]version-release.arch`, built from the inside out. */
  function ToString(n: Nevra): string {
    Joined(Joined(Joined(n.name, '-', EpochVersion(n.epoch, n.version)), '-', n.release), '.', n.arch)
  }

  /** The text form is the `format!` of the source: the pieces in order. */
  lemma ToStringIsFormat(n: Nevra)
    ensures ToString(n) == n.name + "-" + (if n.epoch.Some? then n.epoch.value + ":" else "") +
                           n.version + "-" + n.release + "." + n.arch
  {
  }

  /** `from_str`: a match of `^NAME-(DIGITS:)?VERSION-RELEASE\.ARCH$`. The classes fix
      where each piece ends: the arch follows the last `.`, the release the last `-`
      before it, the name ends at the `-` before that, and a colon in what remains
      separates the epoch digits from the version. Anything else is `Err(())`. */
  function FromStr(s: string): (r: Result<Nevra, ()>)
    ensures r.Ok? ==> WellFormed(r.value) && ToString(r.value) == s
  {
    match SplitLast(s, '.')
    case None => Err(())
    case Some((p, arch)) =>
      match SplitLast(p, '-')
      case None => Err(())
      case Some((q, release)) =>
        match SplitLast(q, '-')
        case None => Err(())
        case Some((name, mid)) =>
          var n := match SplitLast(mid, ':')
            case None => Nevra(name, None, mid, release, arch)
            case Some((epoch, version)) => Nevra(name, Some(epoch), version, release, arch);
          if WellFormed(n) then Ok(n) else Err(())
  }

  /** Parsing the text form of a well-formed `Nevra` gives it back. */
  lemma FromStrToString(n: Nevra)
    requires WellFormed(n)
    ensures FromStr(ToString(n)) == Ok(n)
  {
    var mid := EpochVersion(n.epoch, n.version);
    var q := Joined(n.name, '-', mid);
    var p := Joined(q, '-', n.release);
    SplitLastJoined(p, '.', n.arch);
    SplitLastJoined(q, '-', n.release);
    assert '-' !in mid;
    SplitLastJoined(n.name, '-', mid);
    if n.epoch.Some? {
      SplitLastJoined(n.epoch.value, ':', n.version);
    } else {
      assert ':' !in n.version;
    }
  }

  /** `from_str` succeeds exactly on the text forms of well-formed values, and a
      successful parse prints back to its input. */
  lemma FromStrAcceptsExactlyTheGrammar(s: string)
    ensures FromStr(s).Ok? <==> exists n :: WellFormed(n) && ToString(n) == s
  {
    if exists n :: WellFormed(n) && ToString(n) == s {
      var n :| WellFormed(n) && ToString(n) == s;
      FromStrToString(n);
    }
  }

  /** `evr()`: no epoch is epoch 0, otherwise the epoch text parsed as an `i64`; version and
      release are copied. The source unwraps the parse, so an epoch too large for `i64`
      is a panic there and `None` here. */
  function EvrOf(n: Nevra): (r: Option<Evr>)
    ensures r.Some? ==> r.value.version == n.version && r.value.release == n.release
    ensures n.epoch.None? ==> r == Some(Evr(0, n.version, n.release))
  {
    match n.epoch
    case None => Some(Evr(0, n.version, n.release))
    case Some(e) =>
      match ParseI64(e)
      case None => None
      case Some(v) => Some(Evr(v, n.version, n.release))
  }

  /** For a parsed `Nevra` the epoch is the value of its digits, and `evr()` fails
      exactly when that value does not fit in an `i64`. */
  lemma EvrOfWellFormed(n: Nevra)
    requires WellFormed(n) && n.epoch.Some?
    ensures EvrOf(n).Some? <==> DigitsToNat(n.epoch.value) <= MaxI64
    ensures EvrOf(n).Some? ==> EvrOf(n).value.epoch == DigitsToNat(n.epoch.value)
  {
    assert IsDigit(n.epoch.value[0]);
  }

  /** `from_name_evr_arch`: the epoch is left out exactly when it is 0. */
  function FromNameEvrArch(name: string, evr: Evr, arch: string): (n: Nevra)
    ensures n.epoch.None? <==> evr.epoch == 0
    ensures n.name == name && n.version == evr.version && n.release == evr.release && n.arch == arch
  {
    Nevra(name, if evr.epoch != 0 then Some(IntToString(evr.epoch)) else None, evr.version, evr.release, arch)
  }

  /** Building a `Nevra` from an `Evr` and taking its `evr()` gives the same `Evr`. */
  lemma EvrOfFromNameEvrArch(name: string, evr: Evr, arch: string)
    ensures EvrOf(FromNameEvrArch(name, evr, arch)) == Some(evr)
  {
    if evr.epoch != 0 {
      ParseIntToString(evr.epoch);
    }
  }
}
