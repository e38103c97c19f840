/**
 * lefFileOpen: the name handed to the path search. The name is the explicit
 * file name, else the def's file, else the def's name. A trailing suffix
 * equal to the requested one (".lef" or ".def") is stripped when it is the
 * last '.' of the part after the last '/', and the result is cut to the 511
 * characters of the 512-byte buffer. When the first open fails and a def was
 * given, the def's name is tried once more, unless the first name already was
 * the def's name itself (a pointer comparison, so an equal string read from
 * elsewhere is retried).
 */
module FileName {
  import opened LefTypes

  /** Characters of the name buffer, less the terminating NUL. */
  const NameBufMax: nat := 511

  /** The last position of `c` in `s`, or -1. */
  function LastIndex(s: string, c: char): (i: int)
    ensures -1 <= i < |s|
    ensures i >= 0 ==> s[i] == c
    ensures forall j :: i < j < |s| ==> s[j] != c
    decreases |s|
  {
    if s == [] then -1
    else if s[|s| - 1] == c then |s| - 1
    else LastIndex(s[..|s| - 1], c)
  }

  /** Where the part after the last '/' starts. */
  function BaseStart(name: string): (b: nat)
    ensures b <= |name|
    ensures forall j :: b <= j < |name| ==> name[j] != '/'
    ensures b > 0 ==> name[b - 1] == '/'
  {
    LastIndex(name, '/') + 1
  }

  /** The position of the last '.' after the last '/', or -1. */
  function SuffixDot(name: string): (e: int)
    ensures e == -1 || BaseStart(name) <= e < |name|
    ensures e >= 0 ==> name[e] == '.'
    ensures forall j :: BaseStart(name) <= j < |name| && j > e ==> name[j] != '.'
  {
    var b := BaseStart(name);
    var e := LastIndex(name[b..], '.');
    if e < 0 then -1 else b + e
  }

  function Min(a: int, b: int): int { if a <= b then a else b }

  /** The suffix strip of lefFileOpen. */
  function StripSuffix(name: string, suffix: string): (r: string)
    ensures |r| <= |name| && r == name[..|r|]
    ensures r != name ==> |r| <= NameBufMax
  {
    var e := SuffixDot(name);
    if e >= 0 && name[e..] == suffix then name[..Min(e, NameBufMax)] else name
  }

  /** A name is stripped exactly when its last '.' after the last '/'
      starts the suffix; a stripped name of at most 511 characters gives the
      name back once the suffix is appended again. */
  lemma StripSuffixSpec(name: string, suffix: string)
    requires |suffix| > 0
    ensures var r := StripSuffix(name, suffix);
      && (r != name <==> SuffixDot(name) >= 0 && name[SuffixDot(name)..] == suffix)
      && (r != name && |r| < NameBufMax ==> r + suffix == name)
  {
    var e := SuffixDot(name);
    if e >= 0 && name[e..] == suffix {
      assert name == name[..e] + name[e..];
    }
  }

  /** A suffix that begins with its only '.', and holds no '/'. */
  predicate PlainSuffix(suffix: string) {
    && |suffix| > 0 && suffix[0] == '.'
    && (forall j :: 0 < j < |suffix| ==> suffix[j] != '.')
    && (forall j :: 0 <= j < |suffix| ==> suffix[j] != '/')
  }

  /** Round trip: appending a plain suffix to a name of at most 511
      characters and stripping it gives the name back. */
  lemma StripAppended(base: string, suffix: string)
    requires PlainSuffix(suffix) && |base| <= NameBufMax
    ensures StripSuffix(base + suffix, suffix) == base
  {
    var name := base + suffix;
    assert forall j :: |base| <= j < |name| ==> name[j] == suffix[j - |base|];
    assert name[|base|] == '.';
    assert BaseStart(name) <= |base|;
    assert SuffixDot(name) == |base|;
    assert name[|base|..] == suffix;
    assert name[..|base|] == base;
  }

  /** A name not ending in the suffix is passed on unchanged. */
  lemma OtherSuffixKept(name: string, suffix: string)
    requires |suffix| > |name| || name[|name| - |suffix|..] != suffix
    ensures StripSuffix(name, suffix) == name
  {
  }

  /** Only the part after the last '/' counts: in "a.lef/c.lef" only the
      last suffix is taken off, and a file named just ".lef" leaves its
      directory, trailing '/' included. */
  lemma DirectoryDotKept()
    ensures StripSuffix("a.lef/c.lef", ".lef") == "a.lef/c"
    ensures StripSuffix("d/.lef", ".lef") == "d/"
  {
    assert PlainSuffix(".lef");
    assert "a.lef/c" + ".lef" == "a.lef/c.lef";
    StripAppended("a.lef/c", ".lef");
    assert "d/" + ".lef" == "d/.lef";
    StripAppended("d/", ".lef");
  }

  /** The def a file name may be derived from: cd_file (absent when the
      cell was never saved) and cd_name. */
  datatype DefNames = DefNames(file: Option<string>, name: string)

  /** The name to open, and whether it still is the def's own cd_name
      string (the pointer lefFileOpen compares against). */
  datatype Chosen = Chosen(name: string, isDefName: bool)

  /** The first name lefFileOpen tries; None when neither a file nor a def
      is given, an error in the source. */
  function ChooseName(file: Option<string>, def: Option<DefNames>, suffix: string): (c: Option<Chosen>)
    ensures c.None? <==> file.None? && def.None?
    ensures c.Some? ==> c.value.isDefName ==> def.Some? && c.value.name == def.value.name
    ensures file.Some? ==> c == Some(Chosen(StripSuffix(file.value, suffix), false))
    ensures file.None? && def.Some? && def.value.file.Some? ==>
      c == Some(Chosen(StripSuffix(def.value.file.value, suffix), false))
    ensures file.None? && def.Some? && def.value.file.None? ==>
      && c.value.name == StripSuffix(def.value.name, suffix)
      && (c.value.isDefName <==> StripSuffix(def.value.name, suffix) == def.value.name)
  {
    var raw :=
      if file.Some? then Some(Chosen(file.value, false))
      else if def.Some? && def.value.file.Some? then Some(Chosen(def.value.file.value, false))
      else if def.Some? then Some(Chosen(def.value.name, true))
      else None;
    if raw.None? then None
    else
      var stripped := StripSuffix(raw.value.name, suffix);
      if stripped == raw.value.name then raw else Some(Chosen(stripped, false))
  }

  /** The names handed to the path search, in order, given which of them
      would open: the chosen name, then the def's name once more when the
      first attempt fails, a def is given, and the chosen name is not the
      def's own string. */
  function Attempts(file: Option<string>, def: Option<DefNames>, suffix: string, opens: string -> bool): (a: seq<string>)
    ensures |a| <= 2
    ensures a == [] <==> file.None? && def.None?
    ensures |a| == 2 ==> def.Some? && a[1] == def.value.name && !opens(a[0])
    ensures a != [] ==> a[0] == ChooseName(file, def, suffix).value.name
    ensures |a| == 2 <==> var c := ChooseName(file, def, suffix);
      c.Some? && !opens(c.value.name) && def.Some? && !c.value.isDefName
  {
    var c := ChooseName(file, def, suffix);
    if c.None? then []
    else if opens(c.value.name) || def.None? || c.value.isDefName then [c.value.name]
    else [c.value.name, def.value.name]
  }

  /** The name that opened, if any. */
  function FileOpen(file: Option<string>, def: Option<DefNames>, suffix: string, opens: string -> bool): (r: Option<string>)
    ensures r.Some? ==> opens(r.value) && r.value in Attempts(file, def, suffix, opens)
  {
    var a := Attempts(file, def, suffix, opens);
    if a != [] && opens(a[0]) then Some(a[0])
    else if |a| == 2 && opens(a[1]) then Some(a[1])
    else None
  }

  /** The open fails only when every attempt fails, and a def whose name
      opens is always found when no explicit file is given. */
  lemma FileOpenFindsDefName(file: Option<string>, def: Option<DefNames>, suffix: string, opens: string -> bool)
    ensures FileOpen(file, def, suffix, opens).None? <==>
      forall i :: 0 <= i < |Attempts(file, def, suffix, opens)| ==> !opens(Attempts(file, def, suffix, opens)[i])
    ensures def.Some? && opens(def.value.name) ==> FileOpen(file, def, suffix, opens).Some?
  {
  }
}
