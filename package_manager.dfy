/** `detectPackageManager`: the lock file decides which installer runs. */
module PackageManager {
  import opened FileTree

  datatype PackageManager = Npm | Yarn | Pnpm

  const PnpmLock: Path := "pnpm-lock.yaml"
  const YarnLock: Path := "yarn.lock"

  /** The lock files of the new project are looked at first, then those of the directory the
      command runs in (`cwd`); pnpm before yarn in each, npm when there is none. */
  function DetectPackageManager(project: Tree, cwd: set<Path>): (pm: PackageManager)
    ensures pm == Npm <==>
      PnpmLock !in project && YarnLock !in project && PnpmLock !in cwd && YarnLock !in cwd
    ensures pm == Pnpm <==> PnpmLock in project || (YarnLock !in project && PnpmLock in cwd)
    ensures pm == Yarn <==>
      PnpmLock !in project && (YarnLock in project || (PnpmLock !in cwd && YarnLock in cwd))
  {
    if PnpmLock in project then Pnpm
    else if YarnLock in project then Yarn
    else if PnpmLock in cwd then Pnpm
    else if YarnLock in cwd then Yarn
    else Npm
  }

  /** A lock file in the project decides alone: the working directory is then irrelevant. */
  lemma ProjectLockDecides(project: Tree, cwd1: set<Path>, cwd2: set<Path>)
    requires PnpmLock in project || YarnLock in project
    ensures DetectPackageManager(project, cwd1) == DetectPackageManager(project, cwd2)
    ensures DetectPackageManager(project, cwd1) == if PnpmLock in project then Pnpm else Yarn
  {
  }

  /** Without project lock files the working directory decides, with the same priority. */
  lemma CwdFallback(project: Tree, cwd: set<Path>)
    requires PnpmLock !in project && YarnLock !in project
    ensures DetectPackageManager(project, cwd) == DetectPackageManager(map[], cwd)
    ensures DetectPackageManager(project, cwd) == Pnpm <==> PnpmLock in cwd
    ensures PnpmLock !in cwd ==> (DetectPackageManager(project, cwd) == Yarn <==> YarnLock in cwd)
  {
  }
}
