/** The difference between the environments before and after an activation's hooks ran. */
module StartDiff {

  type Env = map<string, string>

  const BASH_EXPORTED_FUNC_PREFIX: string := "BASH_FUNC_"

  /** Variables that carry exported bash functions are left alone. */
  predicate IsFunction(key: string) {
    BASH_EXPORTED_FUNC_PREFIX <= key
  }

  datatype Diff = Diff(additions: Env, deletions: seq<string>)

  /** The variables to remove, each once, and the variables to set. */
  ghost predicate IsDiff(start: Env, end: Env, d: Diff) {
    && (forall k :: k in d.deletions <==> k in start && k !in end && !IsFunction(k))
    && (forall i, j :: 0 <= i < j < |d.deletions| ==> d.deletions[i] != d.deletions[j])
    && (forall k :: k in d.additions <==> k in end && !IsFunction(k) && (k in start ==> start[k] != end[k]))
    && (forall k :: k in d.additions ==> d.additions[k] == end[k])
  }

  /** `from_parsed_files`; the maps are visited in any order. */
  method FromParsedFiles(start: Env, end: Env) returns (d: Diff)
    ensures IsDiff(start, end, d)
  {
    var additions: Env := map[];
    var deletions: seq<string> := [];
    var left := start.Keys;
    while left != {}
      invariant left <= start.Keys
      invariant forall k :: k in deletions <==> k in start && k !in left && k !in end && !IsFunction(k)
      invariant forall i, j :: 0 <= i < j < |deletions| ==> deletions[i] != deletions[j]
      decreases |left|
    {
      var key :| key in left;
      left := left - {key};
      if !IsFunction(key) && key !in end {
        deletions := deletions + [key];
      }
    }
    left := end.Keys;
    while left != {}
      invariant left <= end.Keys
      invariant forall k :: k in additions <==>
                  k in end && k !in left && !IsFunction(k) && (k in start ==> start[k] != end[k])
      invariant forall k :: k in additions ==> additions[k] == end[k]
      decreases |left|
    {
      var key :| key in left;
      left := left - {key};
      if !IsFunction(key) && (key !in start || start[key] != end[key]) {
        additions := additions[key := end[key]];
      }
    }
    return Diff(additions, deletions);
  }

  // ---------------------------------------------------------------------------
  // The difference as a patch
  // ---------------------------------------------------------------------------

  /** Remove the deletions, then set the additions. */
  function Patched(env: Env, additions: Env, deletions: set<string>): Env {
    (env - deletions) + additions
  }

  function Deleted(d: Diff): set<string> {
    set k | k in d.deletions
  }

  /** `end` for ordinary variables, `start` for exported functions. */
  ghost predicate IsTarget(start: Env, end: Env, env: Env) {
    forall k :: (if IsFunction(k) then SameAt(env, start, k) else SameAt(env, end, k))
  }

  ghost predicate SameAt(a: Env, b: Env, k: string) {
    (k in a <==> k in b) && (k in a ==> a[k] == b[k])
  }

  /** Patching the start gives the end, exported functions excepted; patching again changes nothing. */
  lemma DiffIsPatch(start: Env, end: Env, d: Diff)
    requires IsDiff(start, end, d)
    ensures d.additions.Keys !! Deleted(d)
    ensures IsTarget(start, end, Patched(start, d.additions, Deleted(d)))
    ensures forall env: Env :: Patched(Patched(env, d.additions, Deleted(d)), d.additions, Deleted(d))
                               == Patched(env, d.additions, Deleted(d))
  {
    var env := Patched(start, d.additions, Deleted(d));
    forall k ensures if IsFunction(k) then SameAt(env, start, k) else SameAt(env, end, k) {
      assert k in Deleted(d) <==> k in start && k !in end && !IsFunction(k);
    }
  }

  /** Exported bash functions are never touched, and nothing else is spared. */
  lemma OnlyFunctionsSpared(start: Env, end: Env, d: Diff, key: string)
    requires IsDiff(start, end, d)
    ensures key in d.deletions <==> key in start && key !in end && !("BASH_FUNC_" <= key)
    ensures key in d.additions
            <==> key in end && !(key in start && start[key] == end[key]) && !("BASH_FUNC_" <= key)
  {
  }

  /** Any patch with the same effect on the start contains every addition and deletion. */
  lemma DiffIsMinimal(start: Env, end: Env, d: Diff, additions: Env, deletions: set<string>)
    requires IsDiff(start, end, d) && IsTarget(start, end, Patched(start, additions, deletions))
    ensures Deleted(d) <= deletions
    ensures forall k :: k in d.additions ==> k in additions && additions[k] == d.additions[k]
  {
    var env := Patched(start, additions, deletions);
    forall k | k in Deleted(d) ensures k in deletions {
      assert SameAt(env, end, k);
    }
    forall k | k in d.additions ensures k in additions && additions[k] == d.additions[k] {
      assert SameAt(env, end, k);
    }
  }
}
