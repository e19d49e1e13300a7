/**
 * The resume store: the process-wide table from email address to resume,
 * the three handlers that read and change it, and the file snapshot that
 * each successful change rewrites.
 */
module Store {
  import opened Records

  type Resumes = map<string, Resume>

  /** Every resume is filed under its own email address. */
  ghost predicate FiledByEmail(m: Resumes) {
    forall e :: e in m ==> m[e].email == e
  }

  // ---------------------------------------------------------------------------
  // The store's transitions, as functions of the table
  // ---------------------------------------------------------------------------

  /** The lookup of the get handler. */
  function Lookup(m: Resumes, email: string): (r: Result<Resume>)
    ensures r.Ok? <==> email in m
    ensures r.Ok? ==> r.value == m[email]
    ensures r.Err? ==> r.error == NotFound
  {
    if email in m then Ok(m[email]) else Err(NotFound)
  }

  /**
   * The table after the create handler: a resume whose email is already a
   * key is a conflict; otherwise exactly that key is added.
   */
  function Insert(m: Resumes, resume: Resume): (r: Result<Resumes>)
    ensures r.Err? <==> resume.email in m
    ensures r.Err? ==> r.error == Conflict
    ensures r.Ok? ==> r.value.Keys == m.Keys + {resume.email}
    ensures r.Ok? ==> r.value[resume.email] == resume
    ensures r.Ok? ==> forall e :: e in m ==> r.value[e] == m[e]
  {
    if resume.email in m then Err(Conflict) else Ok(m[resume.email := resume])
  }

  /** A resume with one more project at the end of its list. */
  function WithProject(resume: Resume, project: Project): (r: Resume)
    ensures r.name == resume.name && r.email == resume.email
    ensures r.skills == resume.skills && r.experience == resume.experience
    ensures |r.projects| == |resume.projects| + 1
    ensures r.projects[..|resume.projects|] == resume.projects
    ensures r.projects[|resume.projects|] == project
  {
    resume.(projects := resume.projects + [project])
  }

  /**
   * The table after the add-project handler: an unknown email is not
   * found; otherwise only that key's record changes, by `WithProject`.
   */
  function AddProject(m: Resumes, email: string, project: Project): (r: Result<Resumes>)
    ensures r.Err? <==> email !in m
    ensures r.Err? ==> r.error == NotFound
    ensures r.Ok? ==> r.value.Keys == m.Keys
    ensures r.Ok? ==> r.value[email] == WithProject(m[email], project)
    ensures r.Ok? ==> forall e :: e in m && e != email ==> r.value[e] == m[e]
  {
    if email !in m then Err(NotFound) else Ok(m[email := WithProject(m[email], project)])
  }

  // ---------------------------------------------------------------------------
  // Properties relating the transitions
  // ---------------------------------------------------------------------------

  /** A resume created under a fresh email is what a later get returns; other gets are unaffected. */
  lemma CreateThenGet(m: Resumes, resume: Resume, other: string)
    requires resume.email !in m
    ensures Insert(m, resume).Ok?
    ensures Lookup(Insert(m, resume).value, resume.email) == Ok(resume)
    ensures other != resume.email ==> Lookup(Insert(m, resume).value, other) == Lookup(m, other)
  {
  }

  /** After an add-project, a get of that email returns the extended record. */
  lemma AddProjectThenGet(m: Resumes, email: string, project: Project)
    requires email in m
    ensures AddProject(m, email, project).Ok?
    ensures Lookup(AddProject(m, email, project).value, email) == Ok(WithProject(m[email], project))
  {
  }

  /** Adding a project never changes which emails are taken, so it never changes what a create decides. */
  lemma AddProjectKeepsCreateOutcome(m: Resumes, email: string, project: Project, resume: Resume)
    requires email in m
    ensures Insert(AddProject(m, email, project).value, resume).Err? <==> Insert(m, resume).Err?
  {
  }

  /** Both changing transitions keep every resume filed under its own email. */
  lemma TransitionsKeepFiling(m: Resumes, resume: Resume, email: string, project: Project)
    requires FiledByEmail(m)
    ensures Insert(m, resume).Ok? ==> FiledByEmail(Insert(m, resume).value)
    ensures AddProject(m, email, project).Ok? ==> FiledByEmail(AddProject(m, email, project).value)
  {
  }

  /** A run of add-project requests for one email, in order; it stops at the first failure. */
  function AddProjects(m: Resumes, email: string, projects: seq<Project>): (r: Result<Resumes>)
    decreases |projects|
  {
    if projects == [] then Ok(m)
    else
      match AddProject(m, email, projects[0])
      case Err(e) => Err(e)
      case Ok(m') => AddProjects(m', email, projects[1..])
  }

  /**
   * Requests for an existing email append their projects in the order they
   * were made, and touch no other record.
   */
  lemma {:induction false} AddProjectsInOrder(m: Resumes, email: string, projects: seq<Project>)
    requires email in m
    ensures AddProjects(m, email, projects)
      == Ok(m[email := m[email].(projects := m[email].projects + projects)])
    decreases |projects|
  {
    if projects == [] {
      assert m[email].projects + projects == m[email].projects;
      assert m[email := m[email]] == m;
    } else {
      var m' := AddProject(m, email, projects[0]).value;
      AddProjectsInOrder(m', email, projects[1..]);
      assert m'[email].projects + projects[1..] == m[email].projects + projects;
      assert m'[email := m'[email].(projects := m'[email].projects + projects[1..])]
          == m[email := m[email].(projects := m[email].projects + projects)];
    }
  }

  /** Requests for an unknown email all fail and leave the table as it was. */
  lemma AddProjectsUnknown(m: Resumes, email: string, projects: seq<Project>)
    requires email !in m && projects != []
    ensures AddProjects(m, email, projects) == Err(NotFound)
  {
  }

  // ---------------------------------------------------------------------------
  // The store as the handlers see it
  // ---------------------------------------------------------------------------

  /**
   * The in-memory table (`resumes` in main.go) and the contents of
   * resumes.json as last written. The file is never read back, so the
   * table starts empty whatever the file holds.
   */
  class ResumeStore {
    var resumes: Resumes
    var snapshot: Resumes

    ghost predicate Valid()
      reads this
    {
      FiledByEmail(resumes)
    }

    constructor (onDisk: Resumes)
      ensures Valid()
      ensures resumes == map[] && snapshot == onDisk
    {
      resumes := map[];
      snapshot := onDisk;
    }

    /**
     * Overwrite resumes.json with the whole table. A file that cannot be
     * created (`writeOk` false) is logged and the snapshot stays as it was.
     */
    method Save(writeOk: bool)
      modifies this`snapshot
      ensures snapshot == if writeOk then resumes else old(snapshot)
    {
      if writeOk {
        snapshot := resumes;
      }
    }

    /** The create handler. */
    method CreateResume(resume: Resume, writeOk: bool) returns (outcome: Result<()>)
      requires Valid()
      modifies this
      ensures Valid()
      ensures Insert(old(resumes), resume).Err? ==>
        outcome == Err(Conflict) && resumes == old(resumes) && snapshot == old(snapshot)
      ensures Insert(old(resumes), resume).Ok? ==>
        && outcome == Ok(())
        && resumes == Insert(old(resumes), resume).value
        && snapshot == (if writeOk then resumes else old(snapshot))
    {
      if resume.email in resumes {
        return Err(Conflict);
      }
      resumes := resumes[resume.email := resume];
      Save(writeOk);
      return Ok(());
    }

    /** The get handler; it reads the table and changes nothing. */
    method GetResume(email: string) returns (r: Result<Resume>)
      requires Valid()
      ensures r == Lookup(resumes, email)
      ensures r.Ok? ==> r.value.email == email
    {
      if email !in resumes {
        return Err(NotFound);
      }
      r := Ok(resumes[email]);
    }

    /** The add-project handler: copy the record, append, write it back. */
    method AddProjectToResume(email: string, project: Project, writeOk: bool) returns (outcome: Result<()>)
      requires Valid()
      modifies this
      ensures Valid()
      ensures AddProject(old(resumes), email, project).Err? ==>
        outcome == Err(NotFound) && resumes == old(resumes) && snapshot == old(snapshot)
      ensures AddProject(old(resumes), email, project).Ok? ==>
        && outcome == Ok(())
        && resumes == AddProject(old(resumes), email, project).value
        && snapshot == (if writeOk then resumes else old(snapshot))
    {
      if email !in resumes {
        return Err(NotFound);
      }
      var resume := resumes[email];
      resume := resume.(projects := resume.projects + [project]);
      resumes := resumes[email := resume];
      Save(writeOk);
      return Ok(());
    }
  }

  /** What a client can rely on from the handlers' contracts alone. */
  method CreateThenGetScenario(resume: Resume, project: Project)
  {
    var store := new ResumeStore(map[]);
    var created := store.CreateResume(resume, true);
    assert created == Ok(());
    var again := store.CreateResume(resume, true);
    assert again == Err(Conflict);
    var got := store.GetResume(resume.email);
    assert got == Ok(resume);
    var added := store.AddProjectToResume(resume.email, project, false);
    assert added == Ok(());
    got := store.GetResume(resume.email);
    assert got.Ok? && got.value.projects == resume.projects + [project];
    assert store.snapshot == map[resume.email := resume];
  }
}
