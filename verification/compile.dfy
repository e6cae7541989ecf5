/** The context bundle of a project: members and artifacts are sorted in place, then written out row by row. */
module Compiler {
  import opened Paths
  import opened Semver
  import opened Sorts

  datatype Member = Member(username: string, role: string)
  datatype Artifact = Artifact(name: string, latestVersion: string, openProposals: int)

  function UsernameOf(m: Member): string {
    m.username
  }

  function NameOf(a: Artifact): string {
    a.name
  }

  /** The input without its two lists. */
  datatype Profile = Profile(
    orgSlug: string, orgInstructions: string,
    slug: string, name: string, instructions: string, solo: bool)

  datatype Bundle = Bundle(claudeMD: string, agentsMD: string, llmsTxt: string, version: string)

  /** The fixed wording, strings.TrimSpace and the content hash. */
  datatype Texts = Texts(
    head: (string, string) -> string,
    intro: (string, string) -> string,
    protocol: string, soloRule: string, teamRules: string, protocolEnd: string,
    orgHeading: string -> string, projectHeading: string,
    mapHeading: string, emptyMap: string, emptyTeamStep: string, tableHeading: string,
    membersHeading: string, footer: string,
    llmsHead: (string, string, string) -> string, llmsAbout: string -> string, llmsHeading: string, llmsNone: string,
    trim: string -> string,
    hash: string -> string)

  // Writing

  function VersionOr(v: string): string {
    if v == "" then "unreleased" else v
  }

  function ArtifactRow(a: Artifact): string {
    "| " + a.name + " | " + VersionOr(a.latestVersion) + " | " + IntText(a.openProposals) + " |\n"
  }

  function LlmsRow(a: Artifact): string {
    "- shared/" + a.name + " — latest " + VersionOr(a.latestVersion) + "\n"
  }

  function MemberRow(m: Member): string {
    "- " + m.username + " (" + m.role + ")\n"
  }

  function Rows<T>(xs: seq<T>, row: T -> string): string {
    if xs == [] then "" else Rows(xs[..|xs| - 1], row) + row(xs[|xs| - 1])
  }

  function Instructions(t: Texts, p: Profile): string {
    (if t.trim(p.orgInstructions) != "" then t.orgHeading(p.orgSlug) + t.trim(p.orgInstructions) + "\n\n" else "") +
    (if t.trim(p.instructions) != "" then t.projectHeading + t.trim(p.instructions) + "\n\n" else "")
  }

  function MapSection(t: Texts, p: Profile, artifacts: seq<Artifact>): string {
    if artifacts == [] then t.emptyMap + (if p.solo then "" else t.emptyTeamStep) + "\n"
    else t.tableHeading + Rows(artifacts, ArtifactRow) + "\n"
  }

  function MemberSection(t: Texts, members: seq<Member>): string {
    if members == [] then "" else t.membersHeading + Rows(members, MemberRow) + "\n"
  }

  /** The body down to the heading of the project map. */
  function BodyStart(t: Texts, p: Profile): string {
    t.intro(p.orgSlug, p.slug) + t.protocol + (if p.solo then t.soloRule else t.teamRules) + t.protocolEnd +
    Instructions(t, p) + t.mapHeading
  }

  function Body(t: Texts, p: Profile, members: seq<Member>, artifacts: seq<Artifact>): string {
    BodyStart(t, p) + MapSection(t, p, artifacts) + MemberSection(t, members) + t.footer
  }

  function LlmsTxt(t: Texts, p: Profile, artifacts: seq<Artifact>, version: string): string {
    t.llmsHead(p.slug, p.orgSlug, version) + t.llmsAbout(p.name) + t.llmsHeading +
    (if artifacts == [] then t.llmsNone else "") + Rows(artifacts, LlmsRow)
  }

  function BundleOf(t: Texts, p: Profile, members: seq<Member>, artifacts: seq<Artifact>): Bundle {
    var body := Body(t, p, members, artifacts);
    var version := t.hash(body);
    var content := t.head(p.name, version) + body;
    Bundle(content, content, LlmsTxt(t, p, artifacts, version), version)
  }

  method WriteMap(t: Texts, p: Profile, artifacts: array<Artifact>) returns (b: string)
    ensures b == MapSection(t, p, artifacts[..])
  {
    if artifacts.Length == 0 {
      b := t.emptyMap;
      if !p.solo {
        b := b + t.emptyTeamStep;
      }
      b := b + "\n";
      assert t.emptyMap + "" == t.emptyMap;
    } else {
      var rows := WriteRows(artifacts, ArtifactRow);
      b := t.tableHeading + rows + "\n";
    }
  }

  /** buildBody */
  method BuildBody(t: Texts, p: Profile, members: array<Member>, artifacts: array<Artifact>) returns (b: string)
    ensures b == Body(t, p, members[..], artifacts[..])
  {
    hide Rows, MapSection, Instructions;
    b := t.intro(p.orgSlug, p.slug) + t.protocol;
    if p.solo {
      b := b + t.soloRule;
    } else {
      b := b + t.teamRules;
    }
    b := b + t.protocolEnd + Instructions(t, p) + t.mapHeading;
    var section := WriteMap(t, p, artifacts);
    b := b + section;
    var people := "";
    if members.Length > 0 {
      var rows := WriteRows(members, MemberRow);
      people := t.membersHeading + rows + "\n";
    }
    b := b + people + t.footer;
  }

  method WriteRows<T>(a: array<T>, row: T -> string) returns (b: string)
    ensures b == Rows(a[..], row)
  {
    b := "";
    for i := 0 to a.Length
      invariant b == Rows(a[..i], row)
    {
      b := b + row(a[i]);
      assert a[..i + 1][..i] == a[..i];
    }
    assert a[..a.Length] == a[..];
  }

  /** buildLlmsTxt */
  method BuildLlmsTxt(t: Texts, p: Profile, artifacts: array<Artifact>, version: string) returns (b: string)
    ensures b == LlmsTxt(t, p, artifacts[..], version)
  {
    b := t.llmsHead(p.slug, p.orgSlug, version) + t.llmsAbout(p.name) + t.llmsHeading;
    if artifacts.Length == 0 {
      b := b + t.llmsNone;
    }
    var rows := WriteRows(artifacts, LlmsRow);
    b := b + rows;
  }

  /** What Compile may return for these lists: the bundle of some sorting of each. */
  ghost predicate Compiles(t: Texts, p: Profile, members: seq<Member>, artifacts: seq<Artifact>, b: Bundle) {
    exists ms, xs ::
      Sorting(members, ms, UsernameOf) && Sorting(artifacts, xs, NameOf) && b == BundleOf(t, p, ms, xs)
  }

  /** Compile */
  method Compile(t: Texts, p: Profile, members: array<Member>, artifacts: array<Artifact>) returns (b: Bundle)
    modifies members, artifacts
    ensures Compiles(t, p, old(members[..]), old(artifacts[..]), b)
    ensures b == BundleOf(t, p, members[..], artifacts[..])
    ensures SortedBy(members[..], UsernameOf) && SortedBy(artifacts[..], NameOf)
    ensures forall i, j :: 0 <= i < j < members.Length ==> Leq(members[i].username, members[j].username)
    ensures forall i, j :: 0 <= i < j < artifacts.Length ==> Leq(artifacts[i].name, artifacts[j].name)
  {
    hide Leq;
    hide Body, LlmsTxt, SortedBy;
    SortSlice(members, UsernameOf);
    SortSlice(artifacts, NameOf);
    var body := BuildBody(t, p, members, artifacts);
    var version := t.hash(body);
    var content := t.head(p.name, version) + body;
    var llms := BuildLlmsTxt(t, p, artifacts, version);
    b := Bundle(content, content, llms, version);
    InOrder(members[..], artifacts[..]);
  }

  lemma InOrder(members: seq<Member>, artifacts: seq<Artifact>)
    requires SortedBy(members, UsernameOf) && SortedBy(artifacts, NameOf)
    ensures forall i, j :: 0 <= i < j < |members| ==> Leq(members[i].username, members[j].username)
    ensures forall i, j :: 0 <= i < j < |artifacts| ==> Leq(artifacts[i].name, artifacts[j].name)
  {
    hide Leq;
  }

  /** The order in which members and artifacts come in does not show in any part of the bundle. */
  lemma OrderDoesNotShow(t: Texts, p: Profile, members: seq<Member>, members2: seq<Member>, artifacts: seq<Artifact>,
                         artifacts2: seq<Artifact>,
                         b: Bundle, b2: Bundle)
    requires multiset(members) == multiset(members2) && multiset(artifacts) == multiset(artifacts2)
    requires KeyDetermines(members, UsernameOf) && KeyDetermines(artifacts, NameOf)
    requires Compiles(t, p, members, artifacts, b) && Compiles(t, p, members2, artifacts2, b2)
    ensures b == b2
  {
    hide BundleOf;
    var ms, xs :| Sorting(members, ms, UsernameOf) && Sorting(artifacts, xs, NameOf) && b == BundleOf(t, p, ms, xs);
    var ms2, xs2 :| Sorting(members2, ms2, UsernameOf) && Sorting(artifacts2, xs2, NameOf) &&
        b2 == BundleOf(t, p, ms2, xs2);
    SortingUnique(members, ms, ms2, UsernameOf);
    SortingUnique(artifacts, xs, xs2, NameOf);
  }

  // What the reader of a bundle finds

  /** Where the row of entry i begins among the rows. */
  function RowStart<T>(xs: seq<T>, row: T -> string, i: nat): nat
    requires i <= |xs|
  {
    |Rows(xs[..i], row)|
  }

  /** The rows stand one right behind the other, in the order of the list. */
  lemma {:induction false} RowStands<T>(xs: seq<T>, row: T -> string, i: nat)
    requires i < |xs|
    ensures RowStart(xs, row, i) + |row(xs[i])| == RowStart(xs, row, i + 1) <= |Rows(xs, row)|
    ensures TextAt(Rows(xs, row), RowStart(xs, row, i), row(xs[i]))
    decreases |xs|
  {
    var init := xs[..|xs| - 1];
    assert xs[..i + 1][..i] == xs[..i];
    if i < |init| {
      RowStands(init, row, i);
      assert init[..i] == xs[..i] && init[..i + 1] == xs[..i + 1];
      TextInFront(Rows(init, row), row(xs[|xs| - 1]), RowStart(xs, row, i), row(xs[i]));
    } else {
      assert xs[..i + 1] == xs;
    }
  }

  lemma TextInFront(s: string, tail: string, i: nat, text: string)
    requires TextAt(s, i, text)
    ensures TextAt(s + tail, i, text)
  {
    assert (s + tail)[i..i + |text|] == s[i..i + |text|];
  }

  lemma TextBehind(head: string, s: string, tail: string, i: nat, text: string)
    requires TextAt(s, i, text)
    ensures TextAt(head + s + tail, |head| + i, text)
  {
    assert (head + s + tail)[|head| + i..|head| + i + |text|] == s[i..i + |text|];
  }

  /** Rows at a place in a text. */
  ghost predicate HoldsRows<T>(s: string, at: nat, xs: seq<T>, row: T -> string) {
    && at + |Rows(xs, row)| <= |s|
    && forall i :: 0 <= i < |xs| ==> TextAt(s, at + RowStart(xs, row, i), row(xs[i]))
  }

  lemma RowsInside<T>(head: string, xs: seq<T>, row: T -> string, tail: string)
    ensures HoldsRows(head + Rows(xs, row) + tail, |head|, xs, row)
  {
    hide Rows, TextAt;
    forall i | 0 <= i < |xs| ensures TextAt(head + Rows(xs, row) + tail, |head| + RowStart(xs, row, i), row(xs[i])) {
      RowStands(xs, row, i);
      TextBehind(head, Rows(xs, row), tail, RowStart(xs, row, i), row(xs[i]));
    }
  }

  /** The map section holds the rows of the artifacts, the member section those of the members. */
  lemma SectionsHoldRows(t: Texts, p: Profile, members: seq<Member>, artifacts: seq<Artifact>)
    returns (at: nat, at2: nat)
    ensures HoldsRows(MapSection(t, p, artifacts), at, artifacts, ArtifactRow)
    ensures HoldsRows(MemberSection(t, members), at2, members, MemberRow)
  {
    hide HoldsRows, ArtifactRow, MemberRow, Rows;
    at, at2 := 0, 0;
    if artifacts == [] {
      NoRows(MapSection(t, p, artifacts), artifacts, ArtifactRow);
    } else {
      at := |t.tableHeading|;
      RowsInside(t.tableHeading, artifacts, ArtifactRow, "\n");
    }
    if members == [] {
      NoRows(MemberSection(t, members), members, MemberRow);
    } else {
      at2 := |t.membersHeading|;
      RowsInside(t.membersHeading, members, MemberRow, "\n");
    }
  }

  lemma NoRows<T>(s: string, xs: seq<T>, row: T -> string)
    requires xs == []
    ensures HoldsRows(s, 0, xs, row)
  {
  }

  lemma HoldsMoved<T>(head: string, s: string, tail: string, at: nat, xs: seq<T>, row: T -> string)
    requires HoldsRows(s, at, xs, row)
    ensures HoldsRows(head + s + tail, |head| + at, xs, row)
  {
    hide Rows, TextAt;
    forall i | 0 <= i < |xs| ensures TextAt(head + s + tail, |head| + at + RowStart(xs, row, i), row(xs[i])) {
      TextBehind(head, s, tail, at + RowStart(xs, row, i), row(xs[i]));
    }
  }

  /** Every artifact and every member has its row in the body, in list order, the artifacts first. */
  lemma BodyHasEveryRow(t: Texts, p: Profile, members: seq<Member>, artifacts: seq<Artifact>)
    returns (at: nat, at2: nat)
    ensures HoldsRows(Body(t, p, members, artifacts), at, artifacts, ArtifactRow)
    ensures HoldsRows(Body(t, p, members, artifacts), at2, members, MemberRow)
    ensures at + |Rows(artifacts, ArtifactRow)| <= at2
  {
    hide BodyStart, MapSection, MemberSection, Rows, RowStart, ArtifactRow, MemberRow;
    var start, table, people := BodyStart(t, p), MapSection(t, p, artifacts), MemberSection(t, members);
    at, at2 := SectionsHoldRows(t, p, members, artifacts);
    HoldsMoved(start, table, people + t.footer, at, artifacts, ArtifactRow);
    HoldsMoved(start + table, people, t.footer, at2, members, MemberRow);
    assert Body(t, p, members, artifacts) == start + table + (people + t.footer) == start + table + people + t.footer;
    at, at2 := |start| + at, |start + table| + at2;
  }

  /** Every artifact has its line in the index, in list order. */
  lemma IndexHasEveryRow(t: Texts, p: Profile, artifacts: seq<Artifact>, version: string)
    ensures exists at :: HoldsRows(LlmsTxt(t, p, artifacts, version), at, artifacts, LlmsRow)
  {
    hide HoldsRows, LlmsRow, Rows;
    var head := t.llmsHead(p.slug, p.orgSlug, version) + t.llmsAbout(p.name) + t.llmsHeading +
                (if artifacts == [] then t.llmsNone else "");
    RowsInside(head, artifacts, LlmsRow, "");
    assert head + Rows(artifacts, LlmsRow) + "" == LlmsTxt(t, p, artifacts, version);
  }

  lemma RowsAreFound<T>(s: string, at: nat, xs: seq<T>, row: T -> string)
    requires HoldsRows(s, at, xs, row)
    ensures forall x :: x in xs ==> ContainsText(s, row(x))
  {
    forall x | x in xs ensures ContainsText(s, row(x)) {
      var i :| 0 <= i < |xs| && xs[i] == x;
      RowStands(xs, row, i);
    }
  }

  lemma FoundBehind(head: string, s: string, text: string)
    requires ContainsText(s, text)
    ensures ContainsText(head + s, text)
  {
    var i :| 0 <= i <= |s| && TextAt(s, i, text);
    TextBehind(head, s, "", i, text);
    assert head + s + "" == head + s;
  }

  /** The table row of an artifact: name, release or "unreleased", number of open proposals; and its line in the
      index. */
  ghost predicate ShowsArtifact(b: Bundle, a: Artifact) {
    var release := if a.latestVersion == "" then "unreleased" else a.latestVersion;
    && ContainsText(b.claudeMD, "| " + a.name + " | " + release + " | " + IntText(a.openProposals) + " |\n")
    && ContainsText(b.llmsTxt, "- shared/" + a.name + " — latest " + release + "\n")
  }

  /** The line of a member: username and role. */
  ghost predicate ShowsMember(b: Bundle, m: Member) {
    ContainsText(b.claudeMD, "- " + m.username + " (" + m.role + ")\n")
  }

  /** The body opens with the protocol of the project's mode, then come the instructions that are not blank. */
  ghost predicate OpensWith(t: Texts, p: Profile, body: string) {
    var org, project := t.trim(p.orgInstructions), t.trim(p.instructions);
    t.intro(p.orgSlug, p.slug) + t.protocol + (if p.solo then t.soloRule else t.teamRules) + t.protocolEnd +
    (if org == "" then "" else t.orgHeading(p.orgSlug) + org + "\n\n") +
    (if project == "" then "" else t.projectHeading + project + "\n\n") + t.mapHeading <= body
  }

  lemma StartReads(t: Texts, p: Profile)
    ensures OpensWith(t, p, BodyStart(t, p))
  {
    var org, project := t.trim(p.orgInstructions), t.trim(p.instructions);
    var o := if org == "" then "" else t.orgHeading(p.orgSlug) + org + "\n\n";
    var q := if project == "" then "" else t.projectHeading + project + "\n\n";
    Regroup(t.intro(p.orgSlug, p.slug) + t.protocol + (if p.solo then t.soloRule else t.teamRules) + t.protocolEnd,
        o, q,
            t.mapHeading);
  }

  lemma Regroup(a: string, b: string, c: string, d: string)
    ensures a + (b + c) + d == a + b + c + d
  {
  }

  lemma OpensLonger(t: Texts, p: Profile, s: string, tail: string)
    requires OpensWith(t, p, s)
    ensures OpensWith(t, p, s + tail)
  {
  }

  /** After the start come the map, the members and the footer; a project without artifacts is told so, and a team
      project how to propose the first one. */
  lemma BodyOpens(t: Texts, p: Profile, members: seq<Member>, artifacts: seq<Artifact>)
    ensures OpensWith(t, p, Body(t, p, members, artifacts))
    ensures artifacts == [] ==>
              ContainsText(Body(t, p, members, artifacts), t.emptyMap + (if p.solo then "" else t.emptyTeamStep) + "\n")
    ensures artifacts != [] ==>
              ContainsText(Body(t, p, members, artifacts), t.tableHeading + Rows(artifacts, ArtifactRow) + "\n")
    ensures members != [] ==>
              ContainsText(Body(t, p, members, artifacts), t.membersHeading + Rows(members, MemberRow) + "\n")
    ensures exists front :: Body(t, p, members, artifacts) == front + t.footer
  {
    hide Rows, BodyStart, OpensWith;
    var start, table, people := BodyStart(t, p), MapSection(t, p, artifacts), MemberSection(t, members);
    var body := Body(t, p, members, artifacts);
    assert body == start + table + people + t.footer == start + (table + people + t.footer);
    StartReads(t, p);
    OpensLonger(t, p, start, table + people + t.footer);
    assert body[|start|..|start| + |table|] == table;
    assert TextAt(body, |start|, table);
    assert body[|start + table|..|start + table| + |people|] == people;
    assert TextAt(body, |start + table|, people);
  }

  /** Whatever the lists passed in, the bundle shows every one of their entries, opens with the rules of the project's
      mode, and its version is the body's hash. */
  lemma EveryEntryShows(t: Texts, p: Profile, members: seq<Member>, artifacts: seq<Artifact>, b: Bundle)
    requires Compiles(t, p, members, artifacts, b)
    ensures forall a :: a in artifacts ==> ShowsArtifact(b, a)
    ensures forall m :: m in members ==> ShowsMember(b, m)
    ensures exists body :: b.claudeMD == b.agentsMD == t.head(p.name, b.version) + body && b.version == t.hash(body) &&
                           OpensWith(t, p, body)
    ensures artifacts == [] ==> ContainsText(b.llmsTxt, t.llmsNone)
    ensures t.llmsHead(p.slug, p.orgSlug, b.version) + t.llmsAbout(p.name) + t.llmsHeading <= b.llmsTxt
  {
    hide Body, LlmsTxt, ArtifactRow, MemberRow, LlmsRow, HoldsRows, ContainsText, SortedBy, ShowsArtifact, ShowsMember;
    hide OpensWith;
    var ms, xs :| Sorting(members, ms, UsernameOf) && Sorting(artifacts, xs, NameOf) && b == BundleOf(t, p, ms, xs);
    var body := Body(t, p, ms, xs);
    var at, at2 := BodyHasEveryRow(t, p, ms, xs);
    IndexHasEveryRow(t, p, xs, b.version);
    var at3 :| HoldsRows(LlmsTxt(t, p, xs, b.version), at3, xs, LlmsRow);
    RowsAreFound(body, at, xs, ArtifactRow);
    RowsAreFound(body, at2, ms, MemberRow);
    RowsAreFound(b.llmsTxt, at3, xs, LlmsRow);
    forall a | a in artifacts ensures ShowsArtifact(b, a) {
      assert a in multiset(artifacts) && a in multiset(xs) && a in xs;
      FoundBehind(t.head(p.name, b.version), body, ArtifactRow(a));
      ArtifactIsShown(b, a);
    }
    forall m | m in members ensures ShowsMember(b, m) {
      assert m in multiset(members) && m in multiset(ms) && m in ms;
      FoundBehind(t.head(p.name, b.version), body, MemberRow(m));
      MemberIsShown(b, m);
    }
    BodyOpens(t, p, ms, xs);
    IndexOpens(t, p, xs, b.version);
    if artifacts == [] {
      assert multiset(xs) == multiset{} && xs == [] by { assert multiset(xs) == multiset(artifacts); NoEntries(xs); }
    }
  }

  lemma NoEntries<T>(xs: seq<T>)
    requires multiset(xs) == multiset{}
    ensures xs == []
  {
    assert |xs| == |multiset(xs)|;
  }

  lemma ArtifactIsShown(b: Bundle, a: Artifact)
    requires ContainsText(b.claudeMD, ArtifactRow(a)) && ContainsText(b.llmsTxt, LlmsRow(a))
    ensures ShowsArtifact(b, a)
  {
    hide ContainsText;
  }

  lemma MemberIsShown(b: Bundle, m: Member)
    requires ContainsText(b.claudeMD, MemberRow(m))
    ensures ShowsMember(b, m)
  {
    hide ContainsText;
  }

  lemma IndexOpens(t: Texts, p: Profile, artifacts: seq<Artifact>, version: string)
    ensures var index := LlmsTxt(t, p, artifacts, version);
            && t.llmsHead(p.slug, p.orgSlug, version) + t.llmsAbout(p.name) + t.llmsHeading <= index
            && (artifacts == [] ==> ContainsText(index, t.llmsNone))
  {
    hide Rows;
    var head, index := t.llmsHead(p.slug, p.orgSlug, version) + t.llmsAbout(p.name) + t.llmsHeading,
                       LlmsTxt(t, p, artifacts, version);
    if artifacts == [] {
      assert index[|head|..|head| + |t.llmsNone|] == t.llmsNone;
      assert TextAt(index, |head|, t.llmsNone);
    }
  }
}
