/** The admin router (`/admin/...`). One `AdminPanel` holds the persisted
    content document, as the handlers load it at the start of a request and
    write it back whole at the end, and the session flag of the administrator's
    browser session. Each handler is a method; a handler behind the
    `isAuthenticated` middleware first checks the flag and, when it is not
    set, redirects to the login page without reading or changing anything. */
module Admin {
  import opened Wrappers
  import opened Content
  import opened Projects
  import Session
  import Text

  /** What a handler answers. `ServerError` stands for an exception escaping
      the handler, after which nothing is saved. */
  datatype Response =
    | Redirect(location: string)
    | Page(view: string)
    | LoginForm(error: Option<string>)
    | ProjectForm(project: Project)
    | ServerError

  const LoginPath := "/admin/login"
  const DashboardPath := "/admin"
  const ProfileSavedPath := "/admin/profile?success=1"
  const SkillsSavedPath := "/admin/skills?success=1"
  const ProjectsPath := "/admin/projects"
  const InvalidCredentials := "Invalid credentials"

  /** The edit page of project `id`, flagged as just saved. */
  function ProjectSavedPath(id: int): string {
    "/admin/projects/edit/" + Text.DecimalString(id) + "?success=1"
  }

  /** The read-only admin pages, all behind the login gate. */
  datatype View = Dashboard | ProfileEditor | SkillsEditor | ProjectList | ProjectCreator

  function ViewName(v: View): string {
    match v
    case Dashboard => "admin/dashboard"
    case ProfileEditor => "admin/edit-profile"
    case SkillsEditor => "admin/edit-skills"
    case ProjectList => "admin/projects-list"
    case ProjectCreator => "admin/edit-project"
  }

  /** The `for (let i = 1; i <= 4; i++)` loop of the skills handler: slot `i`
      is pushed once `items<i>` has been split; a missing `items<i>` throws,
      so the list is never assigned. The result is exactly the four slots
      `Slot(form, 1)` to `Slot(form, 4)` or, when a field is missing, nothing. */
  method CollectSkills(form: Form) returns (r: Option<seq<Skill>>)
    ensures r.Some? <==> SkillsComplete(form)
    ensures r.Some? ==> SkillsFromForm(r.value, form)
  {
    var skills: seq<Skill> := [];
    var i := 1;
    while i <= 4
      invariant 1 <= i <= 5
      invariant |skills| == i - 1
      invariant forall j :: 1 <= j < i ==> ItemsKey(j) in form && skills[j - 1] == Slot(form, j)
    {
      if ItemsKey(i) !in form {
        assert !SkillsComplete(form);
        return None;
      }
      var next := skills + [Slot(form, i)];
      forall j | 1 <= j <= i
        ensures ItemsKey(j) in form && next[j - 1] == Slot(form, j)
      {
        if j < i {
          assert next[j - 1] == skills[j - 1];
        }
      }
      skills := next;
      i := i + 1;
    }
    assert SkillsComplete(form);
    forall k | 0 <= k < 4
      ensures skills[k] == Slot(form, k + 1)
    {
    }
    return Some(skills);
  }

  class AdminPanel {
    /** The administrator account; no handler changes it. */
    const admin: Account
    /** `bcrypt.compare(password, hash)`, abstracted. */
    const passwordMatches: (string, string) -> bool
    var profile: Profile
    var skills: seq<Skill>
    var projects: seq<Project>
    /** `req.session.isAdmin`. */
    var isAdmin: bool

    /** A fresh session over the persisted document. */
    constructor (doc: Document, passwordMatches: (string, string) -> bool)
      ensures admin == doc.admin && profile == doc.profile
      ensures skills == doc.skills && projects == doc.projects
      ensures this.passwordMatches == passwordMatches
      ensures !isAdmin
    {
      admin := doc.admin;
      this.passwordMatches := passwordMatches;
      profile := doc.profile;
      skills := doc.skills;
      projects := doc.projects;
      isAdmin := false;
    }

    /** GET /login: an admin session goes straight to the dashboard. */
    method LoginPage() returns (r: Response)
      ensures isAdmin ==> r == Redirect(DashboardPath)
      ensures !isAdmin ==> r == LoginForm(None)
    {
      if isAdmin {
        return Redirect(DashboardPath);
      }
      return LoginForm(None);
    }

    /** POST /login. The flag is set only when the username equals the
        stored one exactly and the password matches the stored hash; a wrong
        username fails whatever the password. A matching username without a
        password makes the hash comparison throw. Failure never clears the
        flag. */
    method Login(form: Form) returns (r: Response)
      modifies this`isAdmin
      ensures isAdmin == Session.Step(admin, passwordMatches, old(isAdmin),
                                      Session.LoginAttempt(Field(form, "username"), Field(form, "password")))
      ensures (Session.Authenticates(admin, passwordMatches, Field(form, "username"), Field(form, "password")))
                ==> r == Redirect(DashboardPath)
      ensures (Field(form, "username") != Some(admin.username))
                ==> r == LoginForm(Some(InvalidCredentials)) && isAdmin == old(isAdmin)
      ensures (Field(form, "username") == Some(admin.username) && "password" !in form)
                ==> r == ServerError && isAdmin == old(isAdmin)
      ensures (Field(form, "username") == Some(admin.username) && "password" in form
               && !passwordMatches(form["password"], admin.passwordHash))
                ==> r == LoginForm(Some(InvalidCredentials)) && isAdmin == old(isAdmin)
    {
      var username := Field(form, "username");
      var password := Field(form, "password");
      if username == Some(admin.username) {
        if password.None? {
          return ServerError;
        }
        if passwordMatches(password.value, admin.passwordHash) {
          isAdmin := true;
          return Redirect(DashboardPath);
        }
      }
      return LoginForm(Some(InvalidCredentials));
    }

    /** GET /logout: the session is destroyed, whether or not it was admin. */
    method Logout() returns (r: Response)
      modifies this`isAdmin
      ensures isAdmin == Session.Step(admin, passwordMatches, old(isAdmin), Session.Logout)
      ensures !isAdmin && r == Redirect(LoginPath)
    {
      isAdmin := false;
      return Redirect(LoginPath);
    }

    /** The read-only gated pages: rendered for an admin session, a redirect
        to the login page otherwise. */
    method ShowPage(v: View) returns (r: Response)
      ensures !isAdmin ==> r == Redirect(LoginPath)
      ensures isAdmin ==> r == Page(ViewName(v))
    {
      if !isAdmin {
        return Redirect(LoginPath);
      }
      return Page(ViewName(v));
    }

    /** POST /profile: the edited keys and `bio` are replaced, every other
        profile key is kept, and nothing else in the document changes. */
    method UpdateProfile(form: Form) returns (r: Response)
      modifies this`profile
      ensures !isAdmin ==> r == Redirect(LoginPath) && profile == old(profile)
      ensures isAdmin ==> r == Redirect(ProfileSavedPath) && profile == ReplaceProfile(old(profile), form)
    {
      if !isAdmin {
        return Redirect(LoginPath);
      }
      profile := ReplaceProfile(profile, form);
      return Redirect(ProfileSavedPath);
    }

    /** POST /skills: the four slots replace the previous skills entirely;
        a missing `items<i>` field aborts the request with nothing saved. */
    method UpdateSkills(form: Form) returns (r: Response)
      modifies this`skills
      ensures !isAdmin ==> r == Redirect(LoginPath) && skills == old(skills)
      ensures isAdmin && !SkillsComplete(form) ==> r == ServerError && skills == old(skills)
      ensures isAdmin && SkillsComplete(form) ==> r == Redirect(SkillsSavedPath) && SkillsFromForm(skills, form)
    {
      if !isAdmin {
        return Redirect(LoginPath);
      }
      var collected := CollectSkills(form);
      if collected.None? {
        return ServerError;
      }
      skills := collected.value;
      return Redirect(SkillsSavedPath);
    }

    /** GET /projects/edit/:id: the form of the first project with that id,
        or back to the list when there is none. */
    method EditProject(id: int) returns (r: Response)
      ensures !isAdmin ==> r == Redirect(LoginPath)
      ensures isAdmin && !HasId(projects, id) ==> r == Redirect(ProjectsPath)
      ensures isAdmin && HasId(projects, id) ==> r == ProjectForm(projects[FindIndex(projects, id)])
      ensures r.ProjectForm? ==> r.project.id == id
    {
      if !isAdmin {
        return Redirect(LoginPath);
      }
      var found := Find(projects, id);
      if found.None? {
        return Redirect(ProjectsPath);
      }
      return ProjectForm(found.value);
    }

    /** POST /projects/save. With an id: the first project holding it is
        replaced in place and every other project keeps its position and value;
        an id nobody holds changes nothing. Without an id: a project is
        appended under a fresh id. A missing `technologies` field aborts the
        request before any change. Unique ids stay unique. The appended id is
        the source's `Math.max(...ids) + 1` whenever the list is non-empty; on
        an empty list, where the source's expression is minus infinity, it is
        the intended 1 (`Projects.FirstProjectAsWritten`). */
    method SaveProject(id: Option<int>, form: Form) returns (r: Response)
      modifies this`projects
      ensures !isAdmin ==> r == Redirect(LoginPath) && projects == old(projects)
      ensures isAdmin && "technologies" !in form ==> r == ServerError && projects == old(projects)
      ensures isAdmin && "technologies" in form && id.Some? ==>
                r == Redirect(ProjectSavedPath(id.value))
                && projects == UpdateById(old(projects), id.value, ProjectFrom(id.value, form))
      ensures isAdmin && "technologies" in form && id.None? ==>
                r == Redirect(ProjectsPath)
                && projects == old(projects) + [ProjectFrom(NextId(old(projects)), form)]
      ensures isAdmin && "technologies" in form && id.None? && old(projects) != [] ==>
                NextIdAsWritten(old(projects)) == Finite(projects[|projects| - 1].id)
      ensures isAdmin && "technologies" in form && id.None? && old(projects) == [] ==>
                projects[|projects| - 1].id == 1
      ensures UniqueIds(old(projects)) ==> UniqueIds(projects)
    {
      if !isAdmin {
        return Redirect(LoginPath);
      }
      if "technologies" !in form {
        return ServerError;
      }
      match id
      case Some(n) =>
        var project := ProjectFrom(n, form);
        var index := FindIndex(projects, n);
        if index != -1 {
          if UniqueIds(projects) {
            UpdateKeepsUnique(projects, n, project);
          }
          projects := projects[index := project];
        }
        return Redirect(ProjectSavedPath(n));
      case None =>
        var project := ProjectFrom(NextId(projects), form);
        if projects != [] {
          NextIdAsWrittenAgrees(projects);
        }
        if UniqueIds(projects) {
          AppendKeepsUnique(projects, project);
        }
        projects := projects + [project];
        return Redirect(ProjectsPath);
    }

    /** POST /projects/delete/:id: every project with that id goes, the others
        stay in order; an unknown id changes nothing. */
    method DeleteProject(id: int) returns (r: Response)
      modifies this`projects
      ensures !isAdmin ==> r == Redirect(LoginPath) && projects == old(projects)
      ensures isAdmin ==> r == Redirect(ProjectsPath) && projects == RemoveId(old(projects), id)
      ensures UniqueIds(old(projects)) ==> UniqueIds(projects)
    {
      if !isAdmin {
        return Redirect(LoginPath);
      }
      if UniqueIds(projects) {
        RemoveIdKeepsUnique(projects, id);
      }
      projects := RemoveId(projects, id);
      return Redirect(ProjectsPath);
    }
  }
}
