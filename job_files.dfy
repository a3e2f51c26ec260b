/**
 * Job configuration file names.  `fetch` writes `config-<job>.yaml`; `push`
 * and `create` take the job name back out of a file name with the pattern
 * `^config-(.*)\.[^.]*$`, skip the files that do not match, and convert the
 * content from YAML to XML only when the name ends in `.yaml`.
 */
module JobFiles {
  import opened Wrappers
  import opened Text

  const Prefix: string := "config-"

  /** The file name `fetch` gives a job's configuration, for any extension. */
  function ConfigFileName(job: string, ext: string): string
  {
    Prefix + job + "." + ext
  }

  /** The position of the last `.` in `s`. */
  function LastDot(s: string): (r: Option<nat>)
    ensures r.None? <==> '.' !in s
    ensures r.Some? ==> r.value < |s| && s[r.value] == '.' && '.' !in s[r.value + 1..]
  {
    if s == [] then None
    else if s[|s| - 1] == '.' then Some(|s| - 1)
    else
      var r := LastDot(s[..|s| - 1]);
      assert s == s[..|s| - 1] + [s[|s| - 1]];
      r
  }

  /**
   * The group the pattern `^config-(.*)\.[^.]*$` captures: the text between the
   * prefix and the last `.`.  `.` in the group does not match a newline, while `[^.]*`
   * does, so a newline may follow the last dot but not precede it.
   */
  function JobName(f: string): Option<string>
  {
    if |f| < |Prefix| || f[..|Prefix|] != Prefix then None
    else
      var rest := f[|Prefix|..];
      match LastDot(rest)
      case None => None
      case Some(d) => if '\n' in rest[..d] then None else Some(rest[..d])
  }

  /** Reference reading of the pattern: `f` is the prefix, `name`, a dot and a dot-free extension. */
  ghost predicate MatchesAs(f: string, name: string)
  {
    '\n' !in name && exists ext :: '.' !in ext && f == Prefix + name + "." + ext
  }

  /** Whatever `JobName` extracts is a reading of the pattern. */
  lemma JobNameSound(f: string)
    requires JobName(f).Some?
    ensures MatchesAs(f, JobName(f).value)
  {
    var rest := f[|Prefix|..];
    var d := LastDot(rest).value;
    var name, ext := rest[..d], rest[d + 1..];
    assert JobName(f) == Some(name) && '\n' !in name;
    assert '.' !in ext;
    assert rest == name + "." + ext by {
      assert rest == rest[..d] + [rest[d]] + rest[d + 1..];
    }
    assert f == Prefix + rest by {
      assert f == f[..|Prefix|] + f[|Prefix|..];
    }
    assert f == Prefix + name + "." + ext;
  }

  /** Every reading of the pattern is the one `JobName` extracts. */
  lemma JobNameComplete(f: string, name: string, ext: string)
    requires '\n' !in name && '.' !in ext
    requires f == Prefix + name + "." + ext
    ensures JobName(f) == Some(name)
  {
    assert f[..|Prefix|] == Prefix;
    var rest := f[|Prefix|..];
    assert rest == name + "." + ext;
    LastDotOfSplit(name, ext);
    assert rest[..|name|] == name;
  }

  lemma {:induction false} LastDotOfSplit(name: string, ext: string)
    requires '.' !in ext
    ensures LastDot(name + "." + ext) == Some(|name|)
  {
    var s := name + "." + ext;
    if ext != [] {
      var e := ext[..|ext| - 1];
      assert ext[|ext| - 1] in ext;
      assert s[..|s| - 1] == name + "." + e;
      LastDotOfSplit(name, e);
    }
  }

  /** A name matches exactly when some job name and extension spell it. */
  lemma JobNameIff(f: string, name: string)
    ensures JobName(f) == Some(name) <==> MatchesAs(f, name)
  {
    if JobName(f) == Some(name) {
      JobNameSound(f);
    }
    if MatchesAs(f, name) {
      var ext :| '.' !in ext && f == Prefix + name + "." + ext;
      JobNameComplete(f, name, ext);
    }
  }

  /**
   * The name `fetch` writes reads back as the job: `config-<job>.yaml` gives
   * `<job>` for every job name without a newline, dots included.
   */
  lemma FileNameRoundTrip(job: string)
    requires '\n' !in job
    ensures JobName(ConfigFileName(job, "yaml")) == Some(job)
    ensures JobName(ConfigFileName(job, "xml")) == Some(job)
  {
    JobNameComplete(ConfigFileName(job, "yaml"), job, "yaml");
    JobNameComplete(ConfigFileName(job, "xml"), job, "xml");
  }

  /** What the `push`/`create` loop does with one file argument. */
  datatype Action =
    | Submit(job: string, file: string, convert: bool)  // push the file as job's config
    | Skip(file: string)                                // warn and continue

  function Classify(f: string): Action
  {
    match JobName(f)
    case None => Skip(f)
    case Some(job) => Submit(job, f, EndsWith(f, ".yaml"))
  }

  /**
   * The `push` and `create` loops: one action per file, in order; a file that
   * does not match is skipped and the loop goes on with the next.
   */
  method Plan(files: seq<string>) returns (actions: seq<Action>)
    ensures |actions| == |files|
    ensures forall i :: 0 <= i < |files| ==> actions[i].file == files[i]
    ensures forall i :: 0 <= i < |files| ==>
      (actions[i].Skip? <==> forall name :: !MatchesAs(files[i], name))
    ensures forall i :: 0 <= i < |files| && actions[i].Submit? ==>
      MatchesAs(files[i], actions[i].job) && actions[i].convert == EndsWith(files[i], ".yaml")
  {
    actions := [];
    var i := 0;
    while i < |files|
      invariant 0 <= i <= |files|
      invariant |actions| == i
      invariant forall k :: 0 <= k < i ==> actions[k] == Classify(files[k])
    {
      var f := files[i];
      var job := JobName(f);
      if job.None? {
        actions := actions + [Skip(f)];
        i := i + 1;
        continue;
      }
      actions := actions + [Submit(job.value, f, EndsWith(f, ".yaml"))];
      i := i + 1;
    }
    forall k | 0 <= k < |files|
      ensures actions[k].Skip? <==> forall name :: !MatchesAs(files[k], name)
      ensures actions[k].Submit? ==> MatchesAs(files[k], actions[k].job)
    {
      if JobName(files[k]).Some? {
        JobNameSound(files[k]);
      }
      forall name | MatchesAs(files[k], name) ensures JobName(files[k]) == Some(name) {
        JobNameIff(files[k], name);
      }
    }
  }
}
