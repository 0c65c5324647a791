/** The site's content document, as the admin handlers load it from
    `data.json`: the admin credentials, the profile, four skill slots and the
    project list, together with the submitted form (`req.body`) and the pure
    parts of the profile and skills handlers. */
module Content {
  import opened Wrappers
  import Text

  /** A value stored under a profile key. `Undefined` is what a destructured
      form field holds when the form did not send it; `Other` stands for any
      JSON value the handlers never build (a number, a nested object), kept as
      its serialised text. */
  datatype Value = Undefined | Str(text: string) | Array(elems: seq<Value>) | Other(json: string)

  /** The profile object: whatever keys the document holds. */
  type Profile = map<string, Value>

  /** A submitted form body: field name to submitted text. A field the browser
      did not send is absent from the map. */
  type Form = map<string, string>

  /** The single administrator account; no route changes it. */
  datatype Account = Account(username: string, passwordHash: string)

  /** A skill slot. `category` is `None` when the form lacked the field. */
  datatype Skill = Skill(id: int, category: Option<string>, items: seq<string>)

  /** A project. `kind` is the source's `type` field. */
  datatype Project = Project(
    id: int,
    kind: Option<string>,
    title: Option<string>,
    description: Option<string>,
    technologies: seq<string>,
    link: string,
    image: string)

  /** The whole persisted document. */
  datatype Document = Document(admin: Account, profile: Profile, skills: seq<Skill>, projects: seq<Project>)

  /** `req.body[key]`. */
  function Field(form: Form, key: string): Option<string> {
    if key in form then Some(form[key]) else None
  }

  /** `req.body[key]` as it is stored into the profile object. */
  function FieldValue(form: Form, key: string): Value {
    if key in form then Str(form[key]) else Undefined
  }

  /** The scalar profile keys the profile form overwrites. */
  const ProfileKeys: set<string> :=
    {"name", "title", "subtitle", "email", "github", "linkedin", "instagram", "youtube"}

  /** `{ ...profile, name, title, subtitle, email, github, linkedin, instagram,
      youtube, bio: [bio1, bio2, bio3] }`: every scalar key takes the submitted
      value (undefined when missing), `bio` becomes exactly the three submitted
      lines in order, and every other key keeps its value. */
  function ReplaceProfile(p: Profile, form: Form): (r: Profile)
    ensures r.Keys == p.Keys + ProfileKeys + {"bio"}
    ensures forall k :: k in ProfileKeys ==> r[k] == FieldValue(form, k)
    ensures r["bio"].Array? && |r["bio"].elems| == 3
    ensures r["bio"].elems == [FieldValue(form, "bio1"), FieldValue(form, "bio2"), FieldValue(form, "bio3")]
    ensures forall k :: k in p && k !in ProfileKeys && k != "bio" ==> r[k] == p[k]
  {
    var edited := map k | k in ProfileKeys :: FieldValue(form, k);
    var bio := Array([FieldValue(form, "bio1"), FieldValue(form, "bio2"), FieldValue(form, "bio3")]);
    p + edited + map["bio" := bio]
  }

  /** A later profile submission overrides an earlier one entirely: what the
      profile holds afterwards depends only on the keys the form does not
      edit and on the last form. */
  lemma ProfileLastWriteWins(p: Profile, first: Form, second: Form)
    ensures ReplaceProfile(ReplaceProfile(p, first), second) == ReplaceProfile(p, second)
  {
    var once := ReplaceProfile(p, second);
    var twice := ReplaceProfile(ReplaceProfile(p, first), second);
    assert twice.Keys == once.Keys;
    forall k | k in once
      ensures twice[k] == once[k]
    {
    }
  }

  /** Submitting the same profile form twice is the same as submitting it once. */
  lemma ProfileIdempotent(p: Profile, form: Form)
    ensures ReplaceProfile(ReplaceProfile(p, form), form) == ReplaceProfile(p, form)
  {
    ProfileLastWriteWins(p, form, form);
  }

  /** Saving a profile whose `name` field is "Jane" leaves `name` equal to
      "Jane" for the next request that reads the document. */
  lemma ProfileNameStored(p: Profile, form: Form)
    requires "name" in form && form["name"] == "Jane"
    ensures ReplaceProfile(p, form)["name"] == Str("Jane")
  {
    assert "name" in ProfileKeys;
  }

  /** Form field names of skill slot `i`. */
  function ItemsKey(i: int): string { "items" + Text.DecimalString(i) }
  function CategoryKey(i: int): string { "category" + Text.DecimalString(i) }

  /** The skills form can be processed only if all four `items<i>` fields were
      sent: `undefined.split` throws otherwise. */
  predicate SkillsComplete(form: Form) {
    forall i :: 1 <= i <= 4 ==> ItemsKey(i) in form
  }

  /** Skill slot `i` as built from the form: the category as submitted and the
      items as the comma-split, trimmed items field. */
  function Slot(form: Form, i: int): (s: Skill)
    requires ItemsKey(i) in form
    ensures s.id == i
    ensures s.category.Some? <==> CategoryKey(i) in form
    ensures |s.items| == Text.Count(form[ItemsKey(i)], ',') + 1
  {
    Skill(i, Field(form, CategoryKey(i)), Text.Tokens(form[ItemsKey(i)]))
  }

  /** `skills` is what the skills form yields: four slots, the one at
      position `k` with id `k + 1`, the submitted `category<k+1>` (missing
      when not sent) and the comma-split, trimmed `items<k+1>`. */
  predicate SkillsFromForm(skills: seq<Skill>, form: Form) {
    |skills| == 4
    && forall k :: 0 <= k < 4 ==>
         ItemsKey(k + 1) in form
         && skills[k].id == k + 1
         && skills[k].category == Field(form, CategoryKey(k + 1))
         && skills[k].items == Text.Tokens(form[ItemsKey(k + 1)])
  }

  /** The saved skills depend on the form alone: whatever was stored before,
      two lists the same form yields are equal, so a save replaces the old
      skills entirely. */
  lemma SkillsFromFormUnique(a: seq<Skill>, b: seq<Skill>, form: Form)
    requires SkillsFromForm(a, form) && SkillsFromForm(b, form)
    ensures a == b
  {
    forall k | 0 <= k < 4
      ensures a[k] == b[k]
    {
    }
  }

  /** `link || ''`: a missing or empty field gives the empty string. */
  function OrEmpty(form: Form, key: string): (r: string)
    ensures key in form ==> r == form[key]
    ensures key !in form ==> r == ""
  {
    if key in form && form[key] != "" then form[key] else ""
  }

  /** The project object the save handler builds under id `id`: the id it is
      saved under, the three text fields as sent (missing when not sent), the
      comma-split, trimmed technologies, and link and image defaulting to the
      empty string. */
  function ProjectFrom(id: int, form: Form): (p: Project)
    requires "technologies" in form
    ensures p.id == id
    ensures p.kind == Field(form, "type") && p.title == Field(form, "title")
    ensures p.description == Field(form, "description")
    ensures p.technologies == Text.Tokens(form["technologies"])
    ensures "link" in form ==> p.link == form["link"]
    ensures "link" !in form ==> p.link == ""
    ensures "image" in form ==> p.image == form["image"]
    ensures "image" !in form ==> p.image == ""
  {
    Project(id, Field(form, "type"), Field(form, "title"), Field(form, "description"),
            Text.Tokens(form["technologies"]), OrEmpty(form, "link"), OrEmpty(form, "image"))
  }
}
