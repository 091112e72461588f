/** The name rules the agent relies on: Node's `path.basename`,
    `path.extname` and `path.parse(..).name` on one path component, the
    `<dir>.zip` archive path, `String.prototype.toLowerCase` on the
    extension and `String.prototype.endsWith`. */
module PathNames {
  import opened FileTree

  /** `path.basename(p)`: the last component. */
  function Basename(p: Path): string
    requires p != []
  {
    p[|p| - 1]
  }

  /** A name that `path.join` drops when it normalises: "" or ".". */
  predicate Vanishes(name: string) {
    name == "" || name == "."
  }

  /** `path.join(base, name)` for a name without separators or "..". */
  function JoinName(base: Path, name: string): Path {
    if Vanishes(name) then base else base + [name]
  }

  /** The index of the last '.' in s, or -1 when s has none. */
  function LastDot(s: string): (k: int)
    ensures -1 <= k < |s|
    ensures k >= 0 ==> s[k] == '.'
    ensures forall i :: k < i < |s| ==> s[i] != '.'
  {
    if s == [] then -1
    else if s[|s| - 1] == '.' then |s| - 1
    else LastDot(s[..|s| - 1])
  }

  /** Where Node's extension of a name starts: at its last '.', unless
      there is none, it is the first character, or the name is "..";
      then the extension is empty and this is |name|. */
  function ExtStart(name: string): (k: nat)
    ensures k <= |name|
  {
    var d := LastDot(name);
    if d <= 0 || name == ".." then |name| else d
  }

  /** `path.extname(name)` */
  function ExtName(name: string): (e: string)
    ensures e == "" || (e[0] == '.' && forall i :: 0 < i < |e| ==> e[i] != '.')
    ensures |e| <= |name| && name[|name| - |e|..] == e
  {
    name[ExtStart(name)..]
  }

  /** A name has no extension exactly when it is ".." or has no '.' after
      its first character. */
  lemma ExtNameEmpty(name: string)
    ensures ExtName(name) == "" <==> name == ".." || forall i :: 0 < i < |name| ==> name[i] != '.'
  {
  }

  /** `path.parse(name).name`: the name without its extension. */
  function ParseName(name: string): (n: string)
    ensures n + ExtName(name) == name
    ensures ExtName(name) != "" ==> n != ""
  {
    name[..ExtStart(name)]
  }

  /** An extension as Node reports one: a '.' and no further '.'. */
  predicate IsExtension(e: string) {
    |e| >= 1 && e[0] == '.' && forall i :: 0 < i < |e| ==> e[i] != '.'
  }

  /** ExtName and ParseName split a name back into the stem and extension
      it was built from. */
  lemma SplitExtension(stem: string, e: string)
    requires stem != "" && IsExtension(e) && stem + e != ".."
    ensures ExtName(stem + e) == e
    ensures ParseName(stem + e) == stem
  {
    var s := stem + e;
    var d := LastDot(s);
    assert s[|stem|] == '.';
    assert forall i :: |stem| < i < |s| ==> s[i] == e[i - |stem|];
    assert d == |stem|;
  }

  /** `${directoryPath}.zip`: the archive of a directory sits next to it,
      under its name with ".zip" appended. */
  function ZipPath(p: Path): (z: Path)
    requires p != []
    ensures z != [] && |z| == |p| && Parent(z) == Parent(p)
    ensures Basename(z) == Basename(p) + ".zip"
    ensures z != p
  {
    var z := Parent(p) + [Basename(p) + ".zip"];
    assert Parent(z) == Parent(p);
    z
  }

  /** Node reads the archive's name back as the directory's name with the
      extension ".zip". */
  lemma ZipPathNames(p: Path)
    requires p != [] && Basename(p) != ""
    ensures ExtName(Basename(ZipPath(p))) == ".zip"
    ensures ParseName(Basename(ZipPath(p))) == Basename(p)
  {
    SplitExtension(Basename(p), ".zip");
  }

  /** `String.prototype.endsWith(suffix)` */
  predicate EndsWith(s: string, suffix: string) {
    |suffix| <= |s| && s[|s| - |suffix|..] == suffix
  }

  function LowerChar(c: char): char {
    if 'A' <= c <= 'Z' then (c as int + 32) as char else c
  }

  /** `toLowerCase()` on the ASCII letters. */
  function Lower(s: string): (r: string)
    ensures |r| == |s|
    ensures forall i :: 0 <= i < |s| ==> r[i] == LowerChar(s[i])
  {
    if s == [] then [] else Lower(s[..|s| - 1]) + [LowerChar(s[|s| - 1])]
  }
}
