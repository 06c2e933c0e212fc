/** Ingress groups: which group an Ingress belongs to, loading a group, and the finalizers that
    record membership. */
module IngressGroups {
  import opened Options
  import opened Names

  const EXPLICIT_PREFIX := "group.ingress.k8s.aws/"
  const IMPLICIT_FINALIZER := "ingress.k8s.aws/resources"
  const MAX_NAME_LENGTH := 63
  const MIN_ORDER := -1000
  const MAX_ORDER := 1000

  /** Explicit groups have no namespace; an implicit group is named like its only Ingress. */
  type GroupID = NamespacedName

  predicate IsExplicit(g: GroupID) {
    g.namespace == ""
  }

  function Finalizer(g: GroupID): string {
    if IsExplicit(g) then EXPLICIT_PREFIX + g.name else IMPLICIT_FINALIZER
  }

  /** What classifying an Ingress by its class yields; a matching class may prescribe a group. */
  datatype ClassOutcome = Matches(group: Option<string>) | OtherController | InvalidClass | ClassLookupFailed

  datatype OrderAnnotation = NoOrder | MalformedOrder | Order(value: int)

  datatype Ingress = Ingress(
    name: NamespacedName, deleting: bool, finalizers: seq<string>,
    class_: ClassOutcome, groupAnnotation: Option<string>, order: OrderAnnotation)

  datatype LoadError = InvalidIngressClass | InvalidIngressGroup | LookupFailed | InvalidOrder

  // ---------------------------------------------------------------- group of an Ingress

  predicate Alphanumeric(c: char) {
    'a' <= c <= 'z' || '0' <= c <= '9'
  }

  predicate ValidGroupName(s: string) {
    && 0 < |s| <= MAX_NAME_LENGTH
    && Alphanumeric(s[0]) && Alphanumeric(s[|s| - 1])
    && forall c :: c in s ==> Alphanumeric(c) || c == '-' || c == '.'
  }

  function ExplicitGroup(name: string): Result<Option<GroupID>, LoadError> {
    if ValidGroupName(name) then Ok(Some(NamespacedName("", name))) else Err(InvalidIngressGroup)
  }

  /** The group an Ingress belongs to, if any. */
  function GroupOf(ing: Ingress): Result<Option<GroupID>, LoadError> {
    if ing.deleting then Ok(None)
    else match ing.class_
         case InvalidClass => Err(InvalidIngressClass)
         case ClassLookupFailed => Err(LookupFailed)
         case OtherController => Ok(None)
         case Matches(Some(group)) => ExplicitGroup(group)
         case Matches(None) =>
           if ing.groupAnnotation.Some? then ExplicitGroup(ing.groupAnnotation.value) else Ok(Some(ing.name))
  }

  predicate Holds(ing: Ingress, g: GroupID) {
    Finalizer(g) in ing.finalizers && (IsExplicit(g) || ing.name == g)
  }

  datatype Membership = NotAMember | ActiveMember | InactiveMember

  /** How an Ingress stands to a group. A broken class is tolerated for strangers but not for an
      Ingress that still holds the finalizer of the group. */
  function MembershipOf(g: GroupID, ing: Ingress): Result<Membership, LoadError> {
    match GroupOf(ing)
    case Err(InvalidIngressClass) => if Holds(ing, g) then Err(InvalidIngressClass) else Ok(NotAMember)
    case Err(InvalidIngressGroup) => Ok(if Holds(ing, g) then InactiveMember else NotAMember)
    case Err(e) => Err(e)
    case Ok(group) =>
      if group == Some(g) then Ok(ActiveMember)
      else Ok(if Holds(ing, g) then InactiveMember else NotAMember)
  }

  lemma ActiveInOneGroup(ing: Ingress, g: GroupID, h: GroupID)
    requires MembershipOf(g, ing) == Ok(ActiveMember) && MembershipOf(h, ing) == Ok(ActiveMember)
    ensures g == h
  {
  }

  /** Different groups never share a finalizer on the same Ingress. */
  lemma FinalizersDistinguishGroups(ing: Ingress, g: GroupID, h: GroupID)
    requires ing.name.namespace != "" && Finalizer(g) == Finalizer(h)
    requires (IsExplicit(g) || ing.name == g) && (IsExplicit(h) || ing.name == h)
    ensures g == h
  {
    PrefixDiffers(g.name);
    PrefixDiffers(h.name);
    if IsExplicit(g) && IsExplicit(h) {
      assert Finalizer(g)[|EXPLICIT_PREFIX|..] == g.name && Finalizer(h)[|EXPLICIT_PREFIX|..] == h.name;
    }
  }

  lemma PrefixDiffers(name: string)
    ensures EXPLICIT_PREFIX + name != IMPLICIT_FINALIZER && !(EXPLICIT_PREFIX <= IMPLICIT_FINALIZER)
  {
    assert (EXPLICIT_PREFIX + name)[0] == 'g' && IMPLICIT_FINALIZER[0] == 'i' && EXPLICIT_PREFIX[0] == 'g';
  }

  /** The groups whose finalizer the Ingress holds, exactly. */
  method LoadGroupIDsPendingFinalization(ing: Ingress) returns (groups: seq<GroupID>)
    requires ing.name.namespace != ""
    ensures forall g :: g in groups <==> Holds(ing, g)
  {
    groups := [];
    for i := 0 to |ing.finalizers|
      invariant forall g :: g in groups <==> Holds(ing.(finalizers := ing.finalizers[..i]), g)
    {
      var finalizer := ing.finalizers[i];
      assert ing.finalizers[..i + 1] == ing.finalizers[..i] + [finalizer];
      PrefixDiffers("");
      if finalizer == IMPLICIT_FINALIZER {
        forall g: GroupID | Finalizer(g) == finalizer ensures !IsExplicit(g) {
          PrefixDiffers(g.name);
        }
        groups := groups + [ing.name];
      } else if EXPLICIT_PREFIX <= finalizer {
        var groupName := finalizer[|EXPLICIT_PREFIX|..];
        forall g: GroupID | IsExplicit(g) && Finalizer(g) == finalizer ensures g.name == groupName {
          assert Finalizer(g)[|EXPLICIT_PREFIX|..] == g.name;
        }
        assert finalizer == EXPLICIT_PREFIX + groupName;
        groups := groups + [NamespacedName("", groupName)];
      }
    }
    assert ing.finalizers[..|ing.finalizers|] == ing.finalizers;
  }

  // ---------------------------------------------------------------- membership, by the fields

  /** Matched by a class, and not being deleted. */
  predicate Managed(ing: Ingress) {
    !ing.deleting && ing.class_.Matches?
  }

  /** The group name that counts: the one the class prescribes, else the annotated one. */
  predicate GivesGroup(ing: Ingress, name: string) {
    ing.class_ == Matches(Some(name)) || (ing.class_ == Matches(None) && ing.groupAnnotation == Some(name))
  }

  predicate GivesNoGroup(ing: Ingress) {
    ing.class_ == Matches(None) && ing.groupAnnotation == None
  }

  /** The name that counts is the group's and valid; or the group is the Ingress's own and no name is
      given. */
  predicate BelongsTo(ing: Ingress, g: GroupID) {
    Managed(ing) && if IsExplicit(g) then GivesGroup(ing, g.name) && ValidGroupName(g.name) else g == ing.name && GivesNoGroup(ing)
  }

  /** The class cannot be looked up, or is broken while the finalizer of the group is held. */
  predicate Unplaceable(ing: Ingress, g: GroupID) {
    !ing.deleting && (ing.class_ == ClassLookupFailed || (ing.class_ == InvalidClass && Holds(ing, g)))
  }

  /** Who is active in a group, who is in the way of loading it, and who has left it. */
  lemma MembershipExactlyWhen(g: GroupID, ing: Ingress)
    requires ing.name.namespace != ""
    ensures MembershipOf(g, ing) == Ok(ActiveMember) <==> BelongsTo(ing, g)
    ensures MembershipOf(g, ing).Err? <==> Unplaceable(ing, g)
    ensures MembershipOf(g, ing) == Ok(InactiveMember) <==> Holds(ing, g) && !BelongsTo(ing, g) && !Unplaceable(ing, g)
  {
  }

  lemma FinalizerExamples()
    ensures Finalizer(NamespacedName("", "awesome-group")) == "group.ingress.k8s.aws/awesome-group"
    ensures Finalizer(NamespacedName("ns", "ing")) == "ingress.k8s.aws/resources"
  {
  }

  /** Group names are non-empty, start and end with a lower-case letter or digit, hold only those, dashes
      and dots, and have at most 63 characters. */
  lemma GroupNameExamples()
    ensures ValidGroupName("awesome-group") && ValidGroupName("a") && ValidGroupName("a.1")
    ensures !ValidGroupName("") && !ValidGroupName("-a") && !ValidGroupName("a-") && !ValidGroupName("A") && !ValidGroupName("a_b")
    ensures ValidGroupName(seq(63, i => 'a')) && !ValidGroupName(seq(64, i => 'a'))
  {
    var bad := "a_b";
    assert bad[1] == '_' && '_' in bad;
  }

  // ---------------------------------------------------------------- order of the members

  /** The byte-wise order of strings. */
  predicate StringLess(a: string, b: string) {
    if b == "" then false
    else if a == "" then true
    else if a[0] != b[0] then a[0] < b[0]
    else StringLess(a[1..], b[1..])
  }

  lemma {:induction false} StringLessTotal(a: string, b: string)
    ensures StringLess(a, b) || StringLess(b, a) || a == b
    ensures !(StringLess(a, b) && StringLess(b, a)) && (a == b ==> !StringLess(a, b))
  {
    if a != "" && b != "" && a[0] == b[0] {
      StringLessTotal(a[1..], b[1..]);
      assert a == [a[0]] + a[1..] && b == [b[0]] + b[1..];
    }
  }

  lemma {:induction false} StringLessTransitive(a: string, b: string, c: string)
    requires StringLess(a, b) && StringLess(b, c)
    ensures StringLess(a, c)
  {
    if a != "" && a[0] == b[0] == c[0] {
      StringLessTransitive(a[1..], b[1..], c[1..]);
    }
  }

  function OrderOf(ing: Ingress): int {
    if ing.order.Order? then ing.order.value else 0
  }

  predicate OrderValid(ing: Ingress) {
    match ing.order
    case NoOrder => true
    case MalformedOrder => false
    case Order(n) => MIN_ORDER <= n <= MAX_ORDER
  }

  predicate Before(a: Ingress, b: Ingress) {
    if OrderOf(a) != OrderOf(b) then OrderOf(a) < OrderOf(b) else StringLess(a.name.String(), b.name.String())
  }

  function InsertMember(m: Ingress, sorted: seq<Ingress>): seq<Ingress> {
    if sorted == [] || !Before(sorted[0], m) then [m] + sorted else [sorted[0]] + InsertMember(m, sorted[1..])
  }

  function SortMembers(members: seq<Ingress>): seq<Ingress> {
    if members == [] then [] else InsertMember(members[0], SortMembers(members[1..]))
  }

  /** No member comes before an earlier one. */
  predicate InOrder(members: seq<Ingress>) {
    forall i, j :: 0 <= i < j < |members| ==> !Before(members[j], members[i])
  }

  lemma BeforeTransitive(a: Ingress, b: Ingress, c: Ingress)
    requires !Before(b, a) && !Before(c, b)
    ensures !Before(c, a)
  {
    var x, y, z := a.name.String(), b.name.String(), c.name.String();
    StringLessTotal(x, y);
    StringLessTotal(y, z);
    StringLessTotal(x, z);
    if StringLess(x, y) && StringLess(y, z) {
      StringLessTransitive(x, y, z);
    }
  }

  lemma BeforeAsymmetric(a: Ingress, b: Ingress)
    ensures !(Before(a, b) && Before(b, a))
  {
    StringLessTotal(a.name.String(), b.name.String());
  }

  lemma {:induction false} InsertMemberInOrder(m: Ingress, sorted: seq<Ingress>)
    requires InOrder(sorted)
    ensures InOrder(InsertMember(m, sorted)) && multiset(InsertMember(m, sorted)) == multiset(sorted) + multiset{m}
  {
    if sorted == [] || !Before(sorted[0], m) {
      forall j | 0 <= j < |sorted| ensures !Before(sorted[j], m) {
        if j > 0 {
          BeforeTransitive(m, sorted[0], sorted[j]);
        }
      }
      ConsInOrder(m, sorted);
    } else {
      InsertMemberInOrder(m, sorted[1..]);
      var rest := InsertMember(m, sorted[1..]);
      assert sorted == [sorted[0]] + sorted[1..];
      forall x | x in rest ensures !Before(x, sorted[0]) {
        assert x in multiset(rest);
        BeforeAsymmetric(sorted[0], m);
      }
      ConsInOrder(sorted[0], rest);
    }
  }

  lemma ConsInOrder(m: Ingress, rest: seq<Ingress>)
    requires InOrder(rest) && forall x :: x in rest ==> !Before(x, m)
    ensures InOrder([m] + rest)
  {
  }

  lemma {:induction false} SortMembersCorrect(members: seq<Ingress>)
    ensures InOrder(SortMembers(members)) && multiset(SortMembers(members)) == multiset(members)
  {
    if members != [] {
      SortMembersCorrect(members[1..]);
      InsertMemberInOrder(members[0], SortMembers(members[1..]));
      assert members == [members[0]] + members[1..];
    }
  }

  predicate DistinctNames(members: seq<Ingress>) {
    forall i, j :: 0 <= i < j < |members| ==> members[i].name.String() != members[j].name.String()
  }

  lemma FirstMembersAgree(a: seq<Ingress>, b: seq<Ingress>)
    requires InOrder(a) && InOrder(b) && a != [] && b != [] && DistinctNames(a)
    requires a[0] in b && b[0] in a
    ensures a[0] == b[0]
  {
    var j :| 0 <= j < |a| && a[j] == b[0];
    if j > 0 {
      StringLessTotal(a[0].name.String(), a[j].name.String());
    }
  }

  lemma SameHeadSameTail(a: seq<Ingress>, b: seq<Ingress>)
    requires multiset(a) == multiset(b) && a != [] && b != [] && a[0] == b[0]
    ensures multiset(a[1..]) == multiset(b[1..])
  {
    assert a == [a[0]] + a[1..] && b == [b[0]] + b[1..];
    assert multiset(a[1..]) == multiset(a) - multiset{a[0]};
    assert multiset(b[1..]) == multiset(b) - multiset{b[0]};
  }

  lemma SameElements(a: seq<Ingress>, b: seq<Ingress>, x: Ingress)
    requires multiset(a) == multiset(b)
    ensures x in a <==> x in b
  {
    assert x in a <==> x in multiset(a);
    assert x in b <==> x in multiset(b);
  }

  /** Names are distinct, so members have one order, whatever order they were listed in and
      whatever sorting algorithm is used. */
  lemma {:induction false} OrderUnique(a: seq<Ingress>, b: seq<Ingress>)
    requires InOrder(a) && InOrder(b) && multiset(a) == multiset(b) && DistinctNames(a)
    ensures a == b
  {
    if a != [] && b != [] {
      SameElements(a, b, a[0]);
      SameElements(a, b, b[0]);
      FirstMembersAgree(a, b);
      SameHeadSameTail(a, b);
      OrderUnique(a[1..], b[1..]);
      assert a == [a[0]] + a[1..] && b == [b[0]] + b[1..];
    }
  }

  /** The first text is the second, a prefix of it, or has the smaller character where they first
      differ. */
  ghost predicate NoLater(s: string, t: string) {
    s <= t || exists k :: 0 <= k < |s| && k < |t| && s[..k] == t[..k] && s[k] < t[k]
  }

  lemma NoLaterSameHead(c: char, s: string, t: string)
    ensures NoLater([c] + s, [c] + t) <==> NoLater(s, t)
  {
    var x, y := [c] + s, [c] + t;
    assert x[1..] == s && y[1..] == t;
    if k :| 0 <= k < |s| && k < |t| && s[..k] == t[..k] && s[k] < t[k] {
      assert x[..k + 1] == [c] + s[..k] && y[..k + 1] == [c] + t[..k] && x[k + 1] < y[k + 1];
    }
    if k :| 0 <= k < |x| && k < |y| && x[..k] == y[..k] && x[k] < y[k] {
      assert s[..k - 1] == x[..k][1..] && t[..k - 1] == y[..k][1..] && s[k - 1] < t[k - 1];
    }
  }

  lemma NoLaterOtherHead(s: string, t: string)
    requires s != "" && t != "" && s[0] != t[0]
    ensures NoLater(s, t) <==> s[0] < t[0]
  {
    assert s[..0] == t[..0];
    forall k | 0 < k < |s| && k < |t| ensures s[..k] != t[..k] {
      assert s[..k][0] == s[0] && t[..k][0] == t[0];
    }
  }

  lemma {:induction false} StringLessMeaning(s: string, t: string)
    ensures !StringLess(t, s) <==> NoLater(s, t)
  {
    if s != "" && t != "" {
      if s[0] == t[0] {
        StringLessMeaning(s[1..], t[1..]);
        NoLaterSameHead(s[0], s[1..], t[1..]);
        assert s == [s[0]] + s[1..] && t == [t[0]] + t[1..];
      } else {
        NoLaterOtherHead(s, t);
      }
    }
  }

  /** The smaller annotated order comes first, an absent one counting as 0; among equal orders the
      names decide. */
  ghost predicate ComesFirst(a: Ingress, b: Ingress) {
    var m := if a.order.Order? then a.order.value else 0;
    var n := if b.order.Order? then b.order.value else 0;
    m < n || (m == n && NoLater(a.name.namespace + "/" + a.name.name, b.name.namespace + "/" + b.name.name))
  }

  lemma InOrderMeaning(members: seq<Ingress>)
    ensures InOrder(members) <==> forall i, j :: 0 <= i < j < |members| ==> ComesFirst(members[i], members[j])
  {
    forall i, j | 0 <= i < j < |members| ensures !Before(members[j], members[i]) <==> ComesFirst(members[i], members[j]) {
      StringLessMeaning(members[i].name.String(), members[j].name.String());
    }
  }

  // ---------------------------------------------------------------- loading a group

  datatype Group = Group(id: GroupID, members: seq<Ingress>, inactiveMembers: seq<Ingress>)

  function Select(g: GroupID, ings: seq<Ingress>, kind: Membership): seq<Ingress> {
    if ings == [] then []
    else Select(g, ings[..|ings| - 1], kind)
         + if MembershipOf(g, ings[|ings| - 1]) == Ok(kind) then [ings[|ings| - 1]] else []
  }

  /** Loading fails exactly when some Ingress cannot be placed or an active member has a bad order;
      else it returns the active members in order and the inactive holders of the finalizer. */
  method Load(g: GroupID, ings: seq<Ingress>) returns (r: Result<Group, LoadError>)
    ensures r.Ok? <==> && (forall ing :: ing in ings ==> MembershipOf(g, ing).Ok?)
                       && (forall ing :: ing in Select(g, ings, ActiveMember) ==> OrderValid(ing))
    ensures r.Ok? ==> r.value == Group(g, SortMembers(Select(g, ings, ActiveMember)), Select(g, ings, InactiveMember))
    ensures r.Ok? ==> forall i, j :: 0 <= i < j < |r.value.members| ==> ComesFirst(r.value.members[i], r.value.members[j])
    ensures r.Ok? <==> && (forall ing :: ing in ings ==> MembershipOf(g, ing).Ok?)
                       && (forall m :: m in Select(g, ings, ActiveMember) ==>
                             m.order != MalformedOrder && (m.order.Order? ==> -1000 <= m.order.value <= 1000))
  {
    var members, inactive := [], [];
    for i := 0 to |ings|
      invariant forall k :: 0 <= k < i ==> MembershipOf(g, ings[k]).Ok?
      invariant members == Select(g, ings[..i], ActiveMember) && inactive == Select(g, ings[..i], InactiveMember)
    {
      assert ings[..i + 1][..i] == ings[..i];
      match MembershipOf(g, ings[i])
      case Err(e) => return Err(e);
      case Ok(ActiveMember) => members := members + [ings[i]];
      case Ok(InactiveMember) => inactive := inactive + [ings[i]];
      case Ok(NotAMember) =>
    }
    assert ings[..|ings|] == ings;
    for i := 0 to |members|
      invariant forall k :: 0 <= k < i ==> OrderValid(members[k])
    {
      if !OrderValid(members[i]) {
        return Err(InvalidOrder);
      }
    }
    SortMembersCorrect(members);
    InOrderMeaning(SortMembers(members));
    r := Ok(Group(g, SortMembers(members), inactive));
  }

  lemma {:induction false} SelectElements(g: GroupID, ings: seq<Ingress>, kind: Membership, ing: Ingress)
    ensures ing in Select(g, ings, kind) <==> ing in ings && MembershipOf(g, ing) == Ok(kind)
  {
    if ings != [] {
      SelectElements(g, ings[..|ings| - 1], kind, ing);
      assert ings == ings[..|ings| - 1] + [ings[|ings| - 1]];
    }
  }

  /** A group that loads accounts for every holder of its finalizer: it is active or inactive. */
  lemma HoldersAreAccountedFor(g: GroupID, ings: seq<Ingress>, ing: Ingress)
    requires (forall i :: i in ings ==> MembershipOf(g, i).Ok?) && ing in ings && Holds(ing, g)
    ensures ing in Select(g, ings, ActiveMember) || ing in Select(g, ings, InactiveMember)
    ensures ing.class_.InvalidClass? ==> ing.deleting
  {
    SelectElements(g, ings, ActiveMember, ing);
    SelectElements(g, ings, InactiveMember, ing);
  }
}
