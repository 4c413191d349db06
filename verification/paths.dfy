/** The slice of `pathlib.PurePosixPath` the program uses: the final component
    `name`, `suffix`, `stem` and `with_suffix`. A path is its parent text plus a
    non-empty final component, which is all a directory listing can produce. */
module Paths {
  import opened Results

  /** Final path components are never empty for entries of a directory. */
  type Name = s: string | |s| > 0 witness "x"

  datatype Path = Path(parent: string, name: Name)

  /** Index of the last '.' in `s`, or -1 when there is none (`str.rfind`). */
  function LastDot(s: string): (i: int)
    ensures -1 <= i < |s|
    decreases |s|
  {
    if |s| == 0 then -1
    else if s[|s| - 1] == '.' then |s| - 1
    else LastDot(s[..|s| - 1])
  }

  /** `LastDot` finds a dot and no dot follows it. */
  lemma {:induction false} LastDotSpec(s: string)
    ensures LastDot(s) >= 0 ==> s[LastDot(s)] == '.'
    ensures forall j :: LastDot(s) < j < |s| ==> s[j] != '.'
    decreases |s|
  {
    if |s| > 0 && s[|s| - 1] != '.' {
      LastDotSpec(s[..|s| - 1]);
    }
  }

  /** `PurePath.suffix`: the text from the last dot on, provided that dot is
      neither the first nor the last character of the name; otherwise "". */
  function Suffix(name: Name): (r: string)
    ensures |r| < |name|
  {
    var i := LastDot(name);
    if 0 < i < |name| - 1 then name[i..] else ""
  }

  /** The suffix is empty exactly when the name has no dot after its first
      character or ends in a dot; otherwise it is the dot-led tail of the
      name holding no further dot, which pins it down uniquely. */
  lemma SuffixSpec(name: Name)
    ensures Suffix(name) == "" <==> (name[|name| - 1] == '.' || forall j :: 0 < j < |name| ==> name[j] != '.')
    ensures Suffix(name) != "" ==>
      2 <= |Suffix(name)| && Suffix(name)[0] == '.' && Suffix(name) == name[|name| - |Suffix(name)|..]
    ensures forall j :: 0 < j < |Suffix(name)| ==> Suffix(name)[j] != '.'
  {
    LastDotSpec(name);
  }

  /** `PurePath.stem`: the name without its suffix. */
  function Stem(name: Name): Name {
    name[..|name| - |Suffix(name)|]
  }

  /** Stem and suffix split the name. */
  lemma StemSpec(name: Name)
    ensures Stem(name) + Suffix(name) == name
  {
    SuffixSpec(name);
  }

  /** The checks `with_suffix` makes on its argument (POSIX flavour): no
      separator, and either empty or a dot followed by something. */
  predicate ValidSuffix(s: string) {
    && (forall j :: 0 <= j < |s| ==> s[j] != '/')
    && (s == "" || (s[0] == '.' && s != "."))
  }

  /** `PurePath.with_suffix(s)`; `None` stands for the `ValueError` raised for
      an invalid suffix. */
  function WithSuffix(p: Path, s: string): (r: Option<Path>)
    ensures r.Some? <==> ValidSuffix(s)
    ensures r.Some? ==> r.value.parent == p.parent
  {
    if ValidSuffix(s) then Some(Path(p.parent, Stem(p.name) + s)) else None
  }

  /** A suffix `with_suffix` will report back unchanged: one leading dot and
      at least one further character, none of them a dot or separator. */
  predicate SimpleSuffix(s: string) {
    && |s| >= 2
    && s[0] == '.'
    && forall j :: 1 <= j < |s| ==> s[j] != '.' && s[j] != '/'
  }

  /** Replacing the suffix by a simple one and reading it back gives that
      suffix, keeps the stem, and stays in the same directory. */
  lemma WithSuffixRoundTrip(p: Path, s: string)
    requires SimpleSuffix(s)
    ensures WithSuffix(p, s).Some?
    ensures WithSuffix(p, s).value.parent == p.parent
    ensures Suffix(WithSuffix(p, s).value.name) == s
    ensures Stem(WithSuffix(p, s).value.name) == Stem(p.name)
  {
    var stem := Stem(p.name);
    StemSpec(p.name);
    var n: Name := stem + s;
    SuffixSpec(n);
    assert n[|n| - 1] == s[|s| - 1];
    assert n[|stem|] == '.';
    var r := Suffix(n);
    assert r != "";
    assert |r| == |s|;
    assert r == n[|n| - |s|..] == s;
    assert Stem(n) == n[..|n| - |s|] == stem;
  }

  /** `with_suffix` is idempotent for simple suffixes. */
  lemma WithSuffixIdempotent(p: Path, s: string)
    requires SimpleSuffix(s)
    ensures WithSuffix(WithSuffix(p, s).value, s) == WithSuffix(p, s)
  {
    WithSuffixRoundTrip(p, s);
  }
}
