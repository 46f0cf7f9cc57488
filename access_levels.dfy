/** The access-level resolver: GitLab's numeric permission codes and their role names. */
module AccessLevels {
  import opened Attributes
  import opened Decimal

  /** The fixed table of known codes. */
  const Roles: map<int, string> :=
    map[10 := "Guest", 20 := "Reporter", 30 := "Developer", 40 := "Maintainer", 50 := "Owner"]

  /**
   * `access_level_name`: None gives "", a known code gives its role name and
   * any other code passes through as its decimal text.
   */
  function AccessLevelName(level: Option<int>): (name: string)
    ensures name == "" <==> level.None?
    ensures level.Some? && level.value in Roles ==> name == Roles[level.value]
    ensures level.Some? && level.value !in Roles ==> IsDecimal(name) && DecimalValue(name) == level.value
    ensures level.Some? && level.value !in Roles ==> name == DecimalString(level.value)
  {
    match level
    case None => ""
    case Some(code) =>
      if code in Roles then Roles[code]
      else
        DecimalRoundTrip(code);
        DecimalString(code)
  }

  /** The five named roles. */
  lemma KnownRoles()
    ensures AccessLevelName(Some(10)) == "Guest"
    ensures AccessLevelName(Some(20)) == "Reporter"
    ensures AccessLevelName(Some(30)) == "Developer"
    ensures AccessLevelName(Some(40)) == "Maintainer"
    ensures AccessLevelName(Some(50)) == "Owner"
  {
  }

  /** No role name is well-formed decimal text: it starts with a letter. */
  lemma RoleNameNotDecimal(code: int)
    requires code in Roles
    ensures !IsDecimal(Roles[code])
  {
  }

  /**
   * The resolver loses nothing: distinct inputs (None, a known code, an
   * unknown code) always give distinct names.
   */
  lemma AccessLevelNameInjective(a: Option<int>, b: Option<int>)
    ensures AccessLevelName(a) == AccessLevelName(b) <==> a == b
  {
    if a.Some? && b.Some? && AccessLevelName(a) == AccessLevelName(b) {
      var x, y := a.value, b.value;
      if x in Roles && y !in Roles {
        RoleNameNotDecimal(x);
      } else if x !in Roles && y in Roles {
        RoleNameNotDecimal(y);
      } else if x !in Roles && y !in Roles {
        DecimalStringInjective(x, y);
      }
    }
  }
}
