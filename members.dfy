/**
 * The member normaliser: the memberships of a project or group reduced to
 * one string of sorted, distinct `identity:role` tokens joined by ';'.
 */
module MemberNormaliser {
  import opened Attributes
  import opened Decimal
  import opened AccessLevels
  import opened Strings

  /** One membership record as the API client returns it. */
  datatype Member = Member(username: Attr<string>, name: Attr<string>, id: Attr<int>, accessLevel: Attr<int>)

  /** `getattr(m, attr, "") or ""`: missing, None and "" all read as "". */
  function OrEmpty(a: Attr<string>): (s: string)
    ensures s != "" <==> a.Value? && a.value != ""
    ensures s != "" ==> s == a.value
  {
    if a.Value? then a.value else ""
  }

  /**
   * How an f-string renders `getattr(m, "id", "")`: a missing id gives "",
   * an id of None gives "None", an integer gives its decimal text.
   */
  function IdText(a: Attr<int>): (text: string)
    ensures text == "" <==> a.Missing?
    ensures text == "None" <==> a.Null?
    ensures a.Value? ==> text == DecimalString(a.value)
  {
    match a
    case Missing => ""
    case Null => "None"
    case Value(n) => DecimalString(n)
  }

  /**
   * The identity token of a membership: its username when non-empty, else
   * its display name when non-empty, else "user_id_" and the id.
   */
  function Identity(m: Member): (ident: string)
    ensures ident != ""
    ensures m.username.Value? && m.username.value != "" ==> ident == m.username.value
    ensures !(m.username.Value? && m.username.value != "") && m.name.Value? && m.name.value != "" ==>
      ident == m.name.value
    ensures !(m.username.Value? && m.username.value != "") && !(m.name.Value? && m.name.value != "") ==>
      ident == "user_id_" + IdText(m.id)
  {
    var username := OrEmpty(m.username);
    var name := OrEmpty(m.name);
    var ident := if username != "" then username else name;
    if ident == "" then "user_id_" + IdText(m.id) else ident
  }

  /** The role of a membership: its access level, resolved to a name ("" when absent). */
  function Role(m: Member): (role: string)
    ensures role == "" <==> !m.accessLevel.Value?
  {
    AccessLevelName(Lookup(m.accessLevel))
  }

  /** The token a membership contributes to the summary. */
  function Token(m: Member): (token: string)
    ensures |token| > 0
  {
    Identity(m) + ":" + Role(m)
  }

  /** The tokens of all memberships, one per membership, in listing order. */
  function Tokens(members: seq<Member>): (tokens: seq<string>)
    ensures |tokens| == |members|
  {
    seq(|members|, i requires 0 <= i < |members| => Token(members[i]))
  }

  /** What `format_members` returns for a listing of memberships. */
  function MemberSummary(members: seq<Member>): string {
    Join(SortedDistinct(Tokens(members)), ';')
  }

  /** The summary is empty exactly when the listing is: every token is non-empty. */
  lemma SummaryEmpty(members: seq<Member>)
    ensures MemberSummary(members) == "" <==> |members| == 0
  {
    var tokens := Tokens(members);
    var parts := SortedDistinct(tokens);
    NonEmptyHasElement(tokens);
    NoEmptyElement(tokens, parts);
    JoinEmpty(parts, ';');
  }

  /**
   * `format_members`: collects one token per membership while walking the
   * listing once, then sorts the distinct tokens and joins them with ';'.
   */
  method FormatMembers(members: seq<Member>) returns (summary: string)
    ensures summary == MemberSummary(members)
  {
    var parts: seq<string> := [];
    for i := 0 to |members|
      invariant |parts| == i
      invariant forall k :: 0 <= k < i ==> parts[k] == Token(members[k])
    {
      var m := members[i];
      var username := OrEmpty(m.username);
      var name := OrEmpty(m.name);
      var role := AccessLevelName(Lookup(m.accessLevel));
      var ident := if username != "" then username else name;
      if ident == "" {
        ident := "user_id_" + IdText(m.id);
      }
      parts := parts + [ident + ":" + role];
    }
    assert parts == Tokens(members);
    summary := Join(SortedDistinct(parts), ';');
  }

  /** No membership token contains the separator, so the summary can be split back into tokens. */
  predicate SeparatorFree(members: seq<Member>) {
    forall i :: 0 <= i < |members| ==> ';' !in Token(members[i])
  }

  /**
   * Nothing added, nothing lost, no duplicate: splitting the summary on ';'
   * gives each distinct membership token exactly once, in ascending order.
   */
  lemma SummaryTokens(members: seq<Member>)
    requires |members| > 0
    requires SeparatorFree(members)
    ensures StrictlySorted(Split(MemberSummary(members), ';'))
    ensures Elements(Split(MemberSummary(members), ';')) == Elements(Tokens(members))
  {
    var tokens := Tokens(members);
    var parts := SortedDistinct(tokens);
    assert tokens[0] in Elements(parts);
    forall i | 0 <= i < |parts| ensures ';' !in parts[i] {
      assert parts[i] in Elements(tokens);
    }
    SplitJoin(parts, ';');
  }

  /** The summary depends only on the set of tokens: two listings with the same tokens give the same string. */
  lemma SummaryDependsOnlyOnTokenSet(a: seq<Member>, b: seq<Member>)
    requires Elements(Tokens(a)) == Elements(Tokens(b))
    ensures MemberSummary(a) == MemberSummary(b)
  {
    SortedDistinctDependsOnlyOnElements(Tokens(a), Tokens(b));
  }

  /** The summary is the same whatever order the server lists the memberships in. */
  lemma SummaryOrderIndependent(a: seq<Member>, b: seq<Member>)
    requires multiset(a) == multiset(b)
    ensures MemberSummary(a) == MemberSummary(b)
  {
    forall t ensures t in Elements(Tokens(a)) ==> t in Elements(Tokens(b)) {
      if t in Elements(Tokens(a)) {
        var i :| 0 <= i < |a| && Tokens(a)[i] == t;
        assert a[i] in multiset(b);
        var j :| 0 <= j < |b| && b[j] == a[i];
        assert Tokens(b)[j] == t;
      }
    }
    forall t ensures t in Elements(Tokens(b)) ==> t in Elements(Tokens(a)) {
      if t in Elements(Tokens(b)) {
        var j :| 0 <= j < |b| && Tokens(b)[j] == t;
        assert b[j] in multiset(a);
        var i :| 0 <= i < |a| && a[i] == b[j];
        assert Tokens(a)[i] == t;
      }
    }
    SummaryDependsOnlyOnTokenSet(a, b);
  }

  /** Dropping one membership drops exactly its token. */
  lemma TokensDrop(members: seq<Member>, j: nat)
    requires j < |members|
    ensures Tokens(members[..j] + members[j + 1..]) == Tokens(members)[..j] + Tokens(members)[j + 1..]
  {
    var rest := members[..j] + members[j + 1..];
    var tokens := Tokens(members);
    forall k | 0 <= k < |rest| ensures Tokens(rest)[k] == (tokens[..j] + tokens[j + 1..])[k] {
      if k < j {
        assert rest[k] == members[k];
      } else {
        assert rest[k] == members[k + 1];
      }
    }
  }

  /**
   * Two memberships with the same token (a direct and an inherited grant,
   * say) collapse: dropping one of them leaves the summary unchanged.
   */
  lemma DuplicateCollapses(members: seq<Member>, i: nat, j: nat)
    requires i < |members| && j < |members| && i != j
    requires Token(members[i]) == Token(members[j])
    ensures MemberSummary(members[..j] + members[j + 1..]) == MemberSummary(members)
  {
    var rest := members[..j] + members[j + 1..];
    var tokens := Tokens(members);
    TokensDrop(members, j);
    DropDuplicateKeepsElements(tokens, i, j);
    SummaryDependsOnlyOnTokenSet(rest, members);
  }

  /** A single direct member "alice" with access level 30 gives "alice:Developer". */
  lemma SingleDeveloperSummary()
    ensures MemberSummary([Member(Value("alice"), Missing, Value(1), Value(30))]) == "alice:Developer"
  {
    var m := Member(Value("alice"), Missing, Value(1), Value(30));
    assert Identity(m) == "alice";
    KnownRoles();
    assert Role(m) == "Developer";
    assert Token(m) == "alice:Developer";
    assert Tokens([m]) == ["alice:Developer"];
    assert SortedDistinct(["alice:Developer"]) == ["alice:Developer"];
  }
}
