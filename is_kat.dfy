/** The sentinel account (the repository owner's own, "kat") that the graph
    can be told to leave out, and the `Id` / `Name` string wrappers
    (src/zaphkiel/is_kat.rs). The set-once display name and the marker-file
    flag are passed in as parameters instead of read from globals. */
module IsKat {
  import opened Wrappers

  /** `Id(Arc<str>)`: an account key. */
  datatype Id = Id(value: string)

  /** `Name(Arc<str>)`: a display name. */
  datatype Name = Name(value: string)

  /** `KAT_ID`. */
  const KatId: Id := Id("usr_c2a23c47-1622-4b7a-90a4-b824fcaacc69")

  /** `IsKat for Id`: the id is the sentinel id. */
  predicate IdIsKat(id: Id)
  {
    id == KatId
  }

  /** `IsKat for Name`: the name is the sentinel's display name; reading
      `KAT_DISPLAY_NAME` before it is set panics, so it must be set. */
  predicate NameIsKat(name: Name, katDisplayName: Option<Name>)
    requires katDisplayName.Some?
  {
    name == katDisplayName.value
  }

  /** `IsKat for Arc<str>`: the text is the sentinel id or the sentinel's
      display name. The `||` short-circuits, so reading the unset display name
      panics only when the text is not the id. */
  function StrIsKat(s: string, katDisplayName: Option<Name>): (r: Fatal<bool>)
    ensures r.Panic? <==> s != KatId.value && katDisplayName.None?
    ensures s == KatId.value ==> r == Done(true)
    ensures r.Done? && s != KatId.value ==> r.value == (s == katDisplayName.value.value)
  {
    if s == KatId.value then Done(true)
    else
      match katDisplayName
      case None => Panic("called `Option::unwrap()` on a `None` value")
      case Some(n) => Done(s == n.value)
  }

  /** `From<String>`, `From<Arc<str>>`, `From<&Arc<str>>`, `From<&str>` for `Id`. */
  function IdFrom(s: string): Id
  {
    Id(s)
  }

  /** `From<Id> for Arc<str>` and `ToString for Id`. */
  function IdToString(id: Id): string
  {
    id.value
  }

  /** `From<String>`, `From<Arc<str>>` for `Name`. */
  function NameFrom(s: string): Name
  {
    Name(s)
  }

  /** `From<Name> for Arc<str>`, `ToString` and `AsRef<str>` for `Name`. */
  function NameToString(name: Name): string
  {
    name.value
  }

  /** Wrapping a text and unwrapping it again gives the text back, and the
      other way round. */
  lemma WrapperRoundTrips(s: string, id: Id, name: Name)
    ensures IdToString(IdFrom(s)) == s && IdFrom(IdToString(id)) == id
    ensures NameToString(NameFrom(s)) == s && NameFrom(NameToString(name)) == name
  {
  }

  /** Once the display name is set, the test on raw text is the disjunction
      of the test on the text as an id and the test on it as a name. */
  lemma StrIsKatIsIdOrName(s: string, katDisplayName: Option<Name>)
    requires katDisplayName.Some?
    ensures StrIsKat(s, katDisplayName) ==
      Done(IdIsKat(IdFrom(s)) || NameIsKat(NameFrom(s), katDisplayName))
  {
  }
}
