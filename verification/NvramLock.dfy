/** `nvram_lock`: the name of the lock file, rewritten in place. */
module NvramLock {

  const PREFIX := "/var/lock/"
  const SUFFIX := ".lock"

  function Plain(path: string): string
  {
    PREFIX + path + SUFFIX
  }

  /** Where the rewriting starts: `sizeof` counts the terminator, so the first character of the path is left alone. */
  const FIRST := |PREFIX| + 1

  /** The lock file of a path. */
  function LockFile(path: string): string
  {
    seq(|Plain(path)|, i requires 0 <= i < |Plain(path)| =>
      if i >= FIRST && Plain(path)[i] == '/' then '_' else Plain(path)[i])
  }

  method Rewrite(path: string) returns (lockPath: array<char>)
    ensures fresh(lockPath) && lockPath[..] == LockFile(path)
  {
    var plain := Plain(path);
    lockPath := new char[|plain|](i requires 0 <= i < |plain| => plain[i]);
    var p := FIRST;
    while p < lockPath.Length
      invariant FIRST <= p <= lockPath.Length
      invariant forall i :: 0 <= i < lockPath.Length ==>
        lockPath[i] == if FIRST <= i < p && plain[i] == '/' then '_' else plain[i]
    {
      if lockPath[p] == '/' {
        lockPath[p] := '_';
      }
      p := p + 1;
    }
  }

  /** Two characters of a path that the lock file does not tell apart. */
  predicate Alike(a: char, b: char)
  {
    a == b || (a == '/' && b == '_') || (a == '_' && b == '/')
  }

  /** The lock file is in `/var/lock`, ends in `.lock`, and in between is the path without its later slashes. */
  lemma LockChar(p: string, i: nat)
    requires i < |p|
    ensures |LockFile(p)| == 10 + |p| + 5
    ensures LockFile(p)[..10] == "/var/lock/" && LockFile(p)[10 + |p|..] == ".lock"
    ensures LockFile(p)[10 + i] == if i >= 1 && p[i] == '/' then '_' else p[i]
  {
    forall k | 0 <= k < 5
      ensures LockFile(p)[10 + |p|..][k] == ".lock"[k]
    {
    }
  }

  ghost predicate AlikePaths(p: string, q: string)
  {
    |p| == |q| && forall i :: 0 <= i < |p| ==> if i == 0 then p[i] == q[i] else Alike(p[i], q[i])
  }

  lemma AlikeShare(p: string, q: string)
    requires AlikePaths(p, q)
    ensures LockFile(p) == LockFile(q)
  {
    var a, b, n := LockFile(p), LockFile(q), |PREFIX|;
    forall k | 0 <= k < |a|
      ensures a[k] == b[k]
    {
      if n <= k < n + |p| {
        LockChar(p, k - n);
        LockChar(q, k - n);
      }
    }
  }

  /** Two paths share a lock file exactly when they differ only in slashes and underscores after the first character. */
  lemma SharedLock(p: string, q: string)
    ensures LockFile(p) == LockFile(q) <==> AlikePaths(p, q)
  {
    if LockFile(p) == LockFile(q) {
      assert |p| == |q|;
      forall i | 0 <= i < |p|
        ensures if i == 0 then p[i] == q[i] else Alike(p[i], q[i])
      {
        LockChar(p, i);
        LockChar(q, i);
      }
    }
    if AlikePaths(p, q) {
      AlikeShare(p, q);
    }
  }

  /**
   * The files of nvram.h: the settings, the Broadcom copy, the defaults, and NVRAM_PATH with and without NAND flash.
   */
  const PATHS := ["/tmp/nvram", "/tmp/nvram.bcm", "/etc/default", "/dev/mtdblock14", "/config/nvram/nvram"]

  /** The files of nvram.h have locks of their own. */
  lemma OwnLocks(i: nat, j: nat)
    requires i < j < |PATHS|
    ensures LockFile(PATHS[i]) != LockFile(PATHS[j])
  {
    assert |PATHS[0]| == 10 && |PATHS[1]| == 14 && |PATHS[2]| == 12 && |PATHS[3]| == 15 && |PATHS[4]| == 19;
    SharedLock(PATHS[i], PATHS[j]);
  }
}
