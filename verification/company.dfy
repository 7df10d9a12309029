/**
 The company record: an id, a name and the active flag the soft delete clears.
 */
module CompanyModel {
  import opened Outcomes

  /** The active flag of a freshly constructed record: the constructors never assign it. */
  const DefaultActive: bool := false

  datatype Company = Company(id: Option<int>, name: string, active: bool)

  /** The two-argument constructor. */
  function Make(id: Option<int>, name: string): (c: Company)
    ensures c.id == id && c.name == name && !c.active
  {
    Company(id, name, DefaultActive)
  }

  /** The name-only constructor: no id yet, because the repository assigns it. */
  function Named(name: string): (c: Company)
    ensures c.id.None? && c.name == name && !c.active
  {
    Company(None, name, DefaultActive)
  }

  /** Changes the name and nothing else. */
  function SetName(c: Company, name: string): (r: Company)
    ensures r.name == name && r.id == c.id && r.active == c.active
  {
    c.(name := name)
  }
}
