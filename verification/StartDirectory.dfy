/** The directory each start keeps its state in, named after its store path and timestamp. */
module StartDirectory {
  import opened Options
  import opened Activation
  import opened Decimal

  /** `Path::file_name`: the last component, if it is a name. */
  function FileName(path: Path): Option<string> {
    if path != [] && path[|path| - 1].Normal? then Some(path[|path| - 1].name) else None
  }

  function DirectoryName(basename: string, timestamp: int): string {
    basename + "." + IntText(timestamp)
  }

  /** A directory directly beneath the activation's, or an error for a path without a file name. */
  function StartStateDir(id: StartIdentifier, activationStateDir: Path): (r: Result<Path>)
    ensures r.Ok? <==> id.storePath != [] && id.storePath[|id.storePath| - 1].Normal?
    ensures r.Ok? ==> activationStateDir < r.value && |r.value| == |activationStateDir| + 1
    ensures r.Ok? ==> && r.value[|activationStateDir|].Normal?
                      && id.storePath[|id.storePath| - 1].name < r.value[|activationStateDir|].name
  {
    match FileName(id.storePath)
    case None => Err
    case Some(basename) => Ok(activationStateDir + [Normal(DirectoryName(basename, id.timestamp))])
  }

  /** The text behind the last dot determines where it stands. */
  lemma LastDot(a: string, x: string, b: string, y: string)
    requires '.' !in x && '.' !in y && a + "." + x == b + "." + y
    ensures a == b && x == y
  {
    var s := a + "." + x;
    assert s[|a|] == '.' && s[|b|] == '.';
    assert s[|a| + 1..] == x && s[|b| + 1..] == y;
    assert forall i :: |a| < i < |s| ==> s[i] == x[i - |a| - 1];
    assert forall i :: |b| < i < |s| ==> s[i] == y[i - |b| - 1];
    assert |a| == |b|;
    assert s[..|a|] == a && s[..|b|] == b;
  }

  /** Whatever dots the basename holds, the directory name gives back basename and timestamp. */
  lemma DirectoryNameInjective(b1: string, t1: int, b2: string, t2: int)
    requires DirectoryName(b1, t1) == DirectoryName(b2, t2)
    ensures b1 == b2 && t1 == t2
  {
    IntTextHasNoDot(t1);
    IntTextHasNoDot(t2);
    LastDot(b1, IntText(t1), b2, IntText(t2));
    IntTextInjective(t1, t2);
  }

  /**
   Two starts share a directory exactly when their basenames and timestamps agree; removing
   one start's directory, with everything beneath it, otherwise leaves the other's alone.
   */
  lemma StartDirectoriesCollideIff(a: StartIdentifier, b: StartIdentifier, dir: Path)
    requires StartStateDir(a, dir).Ok? && StartStateDir(b, dir).Ok?
    ensures StartStateDir(a, dir).value <= StartStateDir(b, dir).value
            <==> FileName(a.storePath) == FileName(b.storePath) && a.timestamp == b.timestamp
  {
    var n1 := DirectoryName(FileName(a.storePath).value, a.timestamp);
    var n2 := DirectoryName(FileName(b.storePath).value, b.timestamp);
    var d1, d2 := StartStateDir(a, dir).value, StartStateDir(b, dir).value;
    assert d1[|dir|] == Normal(n1) && d2[|dir|] == Normal(n2);
    if d1 <= d2 {
      assert d1[|dir|] == d2[|dir|];
      DirectoryNameInjective(
        FileName(a.storePath).value, a.timestamp, FileName(b.storePath).value, b.timestamp);
    }
  }

  /** Different starts of store paths in one directory never share a state directory. */
  lemma StartDirectoriesNeverCollide(
    a: StartIdentifier, b: StartIdentifier, store: Path, n1: string, n2: string, dir: Path)
    requires a.storePath == store + [Normal(n1)] && b.storePath == store + [Normal(n2)] && a != b
    ensures StartStateDir(a, dir).Ok? && StartStateDir(b, dir).Ok?
    ensures !(StartStateDir(a, dir).value <= StartStateDir(b, dir).value)
  {
    StartDirectoriesCollideIff(a, b, dir);
  }
}
