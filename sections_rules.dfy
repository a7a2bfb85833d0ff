/** The sections API: who may call which action of the section, group,
    schedule and section-request endpoints, and which records each
    caller sees. */
module SectionsRules {
  import opened Common
  import opened Text
  import opened ContactFields
  import opened CoreValidators
  import AdminApi

  /** The caller: an anonymous visitor or a signed-in user. */
  datatype Requester = Anonymous | User(id: int, staff: bool)

  datatype Action = List | Retrieve | Create | Update | PartialUpdate | Destroy

  /** The permission classes the endpoints use. */
  datatype PermissionClass = IsAdminUser | IsAuthenticated | IsAuthenticatedOrReadOnly

  /** List and retrieve are answered to GET, the read-only method. */
  predicate ReadOnly(a: Action) { a == List || a == Retrieve }

  predicate IsWrite(a: Action) { a == Create || a == Update || a == PartialUpdate || a == Destroy }

  predicate IsStaff(r: Requester) { r.User? && r.staff }

  /** What each permission class lets through. */
  predicate Allows(p: PermissionClass, r: Requester, a: Action)
  {
    match p
    case IsAdminUser => IsStaff(r)
    case IsAuthenticated => r.User?
    case IsAuthenticatedOrReadOnly => ReadOnly(a) || r.User?
  }

  /** The section endpoint: writes for staff, reads for everyone. */
  function SectionPermission(a: Action): PermissionClass
  {
    if IsWrite(a) then IsAdminUser else IsAuthenticatedOrReadOnly
  }

  /** The group and schedule endpoints: writes for staff, reads for
      signed-in users. */
  function GroupPermission(a: Action): PermissionClass
  {
    if IsWrite(a) then IsAdminUser else IsAuthenticated
  }

  function SchedulePermission(a: Action): PermissionClass
  {
    if IsWrite(a) then IsAdminUser else IsAuthenticated
  }

  /** The section-request endpoint keeps its class-level rule. */
  function SectionRequestPermission(a: Action): PermissionClass
  {
    IsAuthenticated
  }

  /** Creating, updating and deleting sections, groups and schedules
      needs a staff account; reading sections needs nothing, reading
      groups and schedules a signed-in user. */
  lemma PermissionsSpec(a: Action, r: Requester)
    ensures IsWrite(a) ==> (Allows(SectionPermission(a), r, a) <==> IsStaff(r))
    ensures IsWrite(a) ==> (Allows(GroupPermission(a), r, a) <==> IsStaff(r))
    ensures IsWrite(a) ==> (Allows(SchedulePermission(a), r, a) <==> IsStaff(r))
    ensures !IsWrite(a) ==> Allows(SectionPermission(a), r, a)
    ensures !IsWrite(a) ==> (Allows(GroupPermission(a), r, a) <==> r.User?)
    ensures !IsWrite(a) ==> (Allows(SchedulePermission(a), r, a) <==> r.User?)
    ensures Allows(SectionRequestPermission(a), r, a) <==> r.User?
  {
  }

  datatype Section = Section(id: int, name: string, active: bool)

  /** Staff see every section, everyone else the active ones. */
  function SectionQueryset(r: Requester, sections: seq<Section>): (q: seq<Section>)
    ensures IsStaff(r) ==> q == sections
    ensures !IsStaff(r) ==> forall s :: s in q <==> s in sections && s.active
  {
    if IsStaff(r) then sections else ActiveSections(sections)
  }

  function ActiveSections(sections: seq<Section>): (q: seq<Section>)
    ensures forall s :: s in q <==> s in sections && s.active
  {
    Filter(sections, (s: Section) => s.active)
  }

  datatype GroupSchedule = GroupSchedule(id: int, group: int, day: int, start: int, end: int)

  function GroupIds(memberships: seq<AdminApi.Membership>, user: int): (ids: set<int>)
    ensures forall g :: g in ids <==> exists m :: m in memberships && m.user == user && m.group == g
  {
    set m | m in memberships && m.user == user :: m.group
  }

  function SchedulesOfGroups(schedules: seq<GroupSchedule>, groups: set<int>): (q: seq<GroupSchedule>)
    ensures forall s :: s in q <==> s in schedules && s.group in groups
  {
    Filter(schedules, (s: GroupSchedule) => s.group in groups)
  }

  /** The schedule list for a signed-in user; `groupParam` is the
      `group` query parameter, `None` when absent or empty. */
  function ScheduleQueryset(user: int, staff: bool, groupParam: Option<int>, schedules: seq<GroupSchedule>,
                            memberships: seq<AdminApi.Membership>): seq<GroupSchedule>
  {
    if groupParam.Some? && staff then SchedulesOfGroups(schedules, {groupParam.value})
    else
      var ids := GroupIds(memberships, user);
      if ids != {} then SchedulesOfGroups(schedules, ids) else []
  }

  /** Staff asking for a group get exactly its schedules; everyone else,
      and staff without the parameter, get the schedules of the groups
      they belong to, and none without a membership. */
  lemma ScheduleQuerysetSpec(user: int, staff: bool, groupParam: Option<int>, schedules: seq<GroupSchedule>,
                             memberships: seq<AdminApi.Membership>)
    ensures groupParam.Some? && staff ==>
      forall s :: s in ScheduleQueryset(user, staff, groupParam, schedules, memberships) <==> s in schedules && s.group == groupParam.value
    ensures !(groupParam.Some? && staff) ==>
      forall s :: s in ScheduleQueryset(user, staff, groupParam, schedules, memberships) <==>
        s in schedules && exists m :: m in memberships && m.user == user && m.group == s.group
    ensures !(groupParam.Some? && staff) && (forall m :: m in memberships ==> m.user != user) ==>
      ScheduleQueryset(user, staff, groupParam, schedules, memberships) == []
  {
    var ids := GroupIds(memberships, user);
    if !(groupParam.Some? && staff) && ids == {} {
      assert forall s :: s in schedules ==> s.group !in ids;
    }
  }

  /** For a non-staff user the `group` parameter changes nothing. */
  lemma GroupParamIgnored(user: int, p1: Option<int>, p2: Option<int>, schedules: seq<GroupSchedule>,
                          memberships: seq<AdminApi.Membership>)
    ensures ScheduleQueryset(user, false, p1, schedules, memberships) == ScheduleQueryset(user, false, p2, schedules, memberships)
  {
  }

  datatype RequestStatus = Pending | Approved | Rejected

  datatype SectionRequest = SectionRequest(section: int, user: int, name: string, phone: string, message: string, status: RequestStatus)

  /** Staff see every section request, others their own. */
  function RequestQueryset(user: int, staff: bool, requests: seq<SectionRequest>): (q: seq<SectionRequest>)
    ensures staff ==> q == requests
    ensures !staff ==> forall x :: x in q <==> x in requests && x.user == user
  {
    if staff then requests else OwnRequests(requests, user)
  }

  function OwnRequests(requests: seq<SectionRequest>, user: int): (q: seq<SectionRequest>)
    ensures forall x :: x in q <==> x in requests && x.user == user
  {
    Filter(requests, (x: SectionRequest) => x.user == user)
  }

  /** `perform_create`: the request is saved for the caller, pending,
      whatever the client sent for those two fields. */
  function CreateRequest(user: int, x: SectionRequest): (r: SectionRequest)
    ensures r.user == user && r.status == Pending
    ensures r.(user := x.user, status := x.status) == x
  {
    x.(user := user, status := Pending)
  }

  /** The fields a section-request update may send. `None` means the
      request leaves the field out. */
  datatype RequestData = RequestData(section: Option<int>, name: Option<string>, phone: Option<string>,
                                     message: Option<string>, status: Option<RequestStatus>)

  /** 403, 400 with the errors per field, or the saved request. */
  datatype Reply = Forbidden | Invalid(errors: map<FieldName, string>) | Saved(request: SectionRequest)

  /** The framework's message for a section id that names no section. */
  function InvalidPkError(id: int): string
  {
    "Invalid pk \"" + IntToString(id) + "\" - object does not exist."
  }

  /** The section is a foreign key: required on a full update, and it has
      to name an existing section. */
  function SectionError(section: Option<int>, partial: bool, sectionIds: set<int>): (e: Option<string>)
    ensures e.Some? <==> (section.None? && !partial) || (section.Some? && section.value !in sectionIds)
    ensures e.Some? && section.Some? ==> e.value == InvalidPkError(section.value)
  {
    if section.None? then (if !partial then Some(RequiredError) else None)
    else if section.value in sectionIds then None
    else Some(InvalidPkError(section.value))
  }

  function ContactOf(d: RequestData): Contact
  {
    Contact(d.name, d.phone, d.message)
  }

  /** The serializer's field errors: those of the section and of the
      contact fields. */
  function RequestErrors(d: RequestData, partial: bool, sectionIds: set<int>): (errs: map<FieldName, string>)
    ensures errs.Keys == ContactErrors(ContactOf(d), partial).Keys
      + (if SectionError(d.section, partial, sectionIds).Some? then {SectionKey} else {})
    ensures forall k :: k in ContactErrors(ContactOf(d), partial) ==> errs[k] == ContactErrors(ContactOf(d), partial)[k]
  {
    var c := ContactErrors(ContactOf(d), partial);
    assert SectionKey !in c;
    WithError(c, SectionKey, SectionError(d.section, partial, sectionIds))
  }

  /** Which fields get an error: the section when missing on a full update
      or unknown; name and phone when missing on a full update or refused
      by their fields; the message when refused. A refused name carries
      its field's error. */
  lemma RequestErrorsSpec(d: RequestData, partial: bool, sectionIds: set<int>)
    ensures var errs := RequestErrors(d, partial, sectionIds);
      (SectionKey in errs <==> (d.section.None? && !partial) || (d.section.Some? && d.section.value !in sectionIds))
      && (NameKey in errs <==> (d.name.None? && !partial) || (d.name.Some? && NameField(d.name.value).Refused?))
      && (PhoneKey in errs <==> (d.phone.None? && !partial) || (d.phone.Some? && PhoneField(d.phone.value).Refused?))
      && (MessageKey in errs <==> d.message.Some? && MessageField(d.message.value).Refused?)
    ensures RequestErrors(d, partial, sectionIds).Keys <= {SectionKey, NameKey, PhoneKey, MessageKey}
    ensures NameKey in RequestErrors(d, partial, sectionIds) && d.name.Some? ==>
      RequestErrors(d, partial, sectionIds)[NameKey] == NameField(d.name.value).error
  {
  }

  /** `serializer.save()` on a stored request: every sent field replaces
      the stored one, the strings stripped. The owner stays. */
  function AssignRequest(x: SectionRequest, d: RequestData): (r: SectionRequest)
    ensures r.user == x.user
    ensures d == RequestData(None, None, None, None, None) ==> r == x
    ensures d.status.Some? ==> r.status == d.status.value
    ensures d.status.None? ==> r.status == x.status
  {
    SectionRequest(
      if d.section.Some? then d.section.value else x.section,
      x.user,
      if d.name.Some? then Trim(d.name.value, IsPySpace) else x.name,
      if d.phone.Some? then Trim(d.phone.value, IsPySpace) else x.phone,
      if d.message.Some? then Trim(d.message.value, IsPySpace) else x.message,
      if d.status.Some? then d.status.value else x.status)
  }

  /** `update` and `partial_update`: a caller who is not staff gets 403,
      and the request is left as it was. For staff, the serializer
      validates the data, and the request is saved or 400 is answered.
      `sectionIds` are the sections that exist. */
  function UpdateRequest(staff: bool, partial: bool, x: SectionRequest, d: RequestData, sectionIds: set<int>): (r: Reply)
    ensures r.Forbidden? <==> !staff
    ensures staff ==> (r.Saved? <==> RequestErrors(d, partial, sectionIds) == map[])
    ensures r.Invalid? ==> r.errors == RequestErrors(d, partial, sectionIds) && r.errors != map[]
    ensures r.Saved? ==> r.request == AssignRequest(x, d)
  {
    if !staff then Forbidden
    else if RequestErrors(d, partial, sectionIds) != map[] then Invalid(RequestErrors(d, partial, sectionIds))
    else Saved(AssignRequest(x, d))
  }

  /** A staff PATCH to the one-letter name "x" is refused with the
      length message on `name` and nothing else. */
  lemma ShortNameRefused(x: SectionRequest, sectionIds: set<int>)
    ensures UpdateRequest(true, true, x, RequestData(None, Some("x"), None, None, None), sectionIds)
      == Invalid(map[NameKey := NameShortError])
  {
    var d := RequestData(None, Some("x"), None, None, None);
    assert TrimStart("x", IsPySpace) == "x";
    assert Trim("x", IsPySpace) == "x";
    assert CharField("x", false, Some(NameMaxLength)) == Accepted("x");
    assert NameField("x") == Refused(NameShortError);
    RequestErrorsSpec(d, true, sectionIds);
    var errs := RequestErrors(d, true, sectionIds);
    assert errs.Keys == {NameKey};
  }

  /** A staff PATCH that sends only a status stores that status and
      nothing else. */
  lemma RequestStatusChange(x: SectionRequest, s: RequestStatus, sectionIds: set<int>)
    ensures UpdateRequest(true, true, x, RequestData(None, None, None, None, Some(s)), sectionIds) == Saved(x.(status := s))
  {
    RequestErrorsSpec(RequestData(None, None, None, None, Some(s)), true, sectionIds);
  }
}
