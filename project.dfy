/**
  The `Project` of pmtk/model/project.py: an id, a title defaulting to that
  id, a description, and a work breakdown of its own.
 */
module Projects {
  import opened Wrappers
  import opened Work
  import Util

  class Project {
    var id: string
    /** The stored title; `None` means the title is the id. */
    var storedTitle: Option<string>
    var description: string
    /** The work breakdown state the source mixes in. */
    const breakdown: WorkBreakdown

    /**
      `Project(id, title=None)`: a fresh breakdown holding only the root
      task, the given id, and the title stored as given.
     */
    constructor (id: string, title: Option<string> := None)
      ensures this.id == id && storedTitle == title && description == Util.DefaultDescription
      ensures Title() == (if title.Some? then title.value else id)
      ensures fresh(breakdown) && breakdown.Valid() && breakdown.tasks == Initial()
    {
      this.id := id;
      storedTitle := title;
      description := Util.DefaultDescription;
      breakdown := new WorkBreakdown();
    }

    /** The `title` property. */
    function Title(): (t: string)
      reads this
      ensures storedTitle.Some? ==> t == storedTitle.value
      ensures storedTitle.None? ==> t == id
    {
      Util.Title(storedTitle, id)
    }

    /** Assigning `title`: a value is read back as given; `None` brings back the id. */
    method SetTitle(title: Option<string>)
      modifies this
      ensures storedTitle == title && id == old(id) && description == old(description)
      ensures Title() == if title.Some? then title.value else id
    {
      storedTitle := title;
    }
  }

  /**
    A new project: its title is the id unless one is given, its id is the
    one given whatever the root task id, and its breakdown is the root task
    `MAIN` titled `Main` alone.
   */
  method NewProjectExample() returns (plain: string, titled: string, id: string, rootTitle: string, taskCount: nat)
    ensures plain == "p" && titled == "Plan" && id == "p"
    ensures rootTitle == RootTaskName && taskCount == 1
  {
    var p := new Project("p");
    var q := new Project("p", Some("Plan"));
    plain, titled, id := p.Title(), q.Title(), p.id;
    rootTitle := p.breakdown.GetBreakdownRoot().title;
    taskCount := |p.breakdown.tasks|;
  }

  /**
    Assigning `id` from outside: while no title is stored the title follows
    the new id, and a stored title stays as it was.
   */
  method RenameExample() returns (before: string, after: string, kept: string)
    ensures before == "p" && after == "q" && kept == "Plan"
  {
    var p := new Project("p");
    before := p.Title();
    p.id := "q";
    after := p.Title();
    var q := new Project("p", Some("Plan"));
    q.id := "q";
    kept := q.Title();
  }
}
