/** The teacher's materials page: the link to an uploaded file, the class and section
    choices derived from the teacher's assigned classes, and the body of a new material.
    The build-time API base (`VITE_API_URL`) is a parameter. */
module Materials {
  import opened Common
  import opened Text

  const DefaultApiBase: string := "http://localhost:5000/api"

  /** `/^https?:\/\//i`. */
  predicate HasHttpScheme(s: string) {
    StartsWithIgnoringCase(s, "http://") || StartsWithIgnoringCase(s, "https://")
  }

  /** `apiBase.replace(/\/api\/?$/, '')`: a trailing `/api` or `/api/` removed. */
  function StripApi(base: string): (r: string)
    ensures r <= base
    ensures r + "/api" == base || r + "/api/" == base || r == base
    ensures r == base <==> !EndsWith(base, "/api") && !EndsWith(base, "/api/")
  {
    if EndsWith(base, "/api/") then base[..|base| - 5]
    else if EndsWith(base, "/api") then base[..|base| - 4]
    else base
  }

  /** The server's own address: the API base, or the default one, without its `/api`. */
  function ServerBase(apiBase: Option<string>): string {
    StripApi(if TruthyText(apiBase) then apiBase.value else DefaultApiBase)
  }

  /** A path with one leading `/` taken off. */
  function Relative(path: string): (r: string)
    ensures path != [] && path[0] == '/' ==> "/" + r == path
    ensures (path == [] || path[0] != '/') ==> r == path
  {
    if path != [] && path[0] == '/' then path[1..] else path
  }

  /** `resolveFileUrl`: nothing for no file, an absolute http(s) address as it is, and any
      other path appended to the server's address behind a `/`. */
  function ResolveFileUrl(fileUrl: Option<string>, apiBase: Option<string>): (r: string)
    ensures !TruthyText(fileUrl) ==> r == ""
    ensures TruthyText(fileUrl) && HasHttpScheme(fileUrl.value) ==> r == fileUrl.value
    ensures TruthyText(fileUrl) && !HasHttpScheme(fileUrl.value) ==>
              r == ServerBase(apiBase) + "/" + Relative(fileUrl.value)
  {
    if !TruthyText(fileUrl) then ""
    else if HasHttpScheme(fileUrl.value) then fileUrl.value
    else
      var path := fileUrl.value;
      var server := ServerBase(apiBase);
      assert path[0] == '/' ==> path == "/" + path[1..];
      server + (if StartsWith(path, "/") then "" else "/") + path
  }

  /** A case-insensitive prefix survives anything appended behind it. */
  lemma PrefixIgnoringCaseExtends(s: string, tail: string, prefix: string)
    requires StartsWithIgnoringCase(s, prefix)
    ensures StartsWithIgnoringCase(s + tail, prefix)
  {
    assert forall i :: 0 <= i < |prefix| ==> (s + tail)[i] == s[i];
  }

  /** With an http(s) server address, a resolved link resolves to itself. */
  lemma ResolveIdempotent(fileUrl: Option<string>, apiBase: Option<string>, otherBase: Option<string>)
    requires HasHttpScheme(ServerBase(apiBase))
    ensures ResolveFileUrl(Some(ResolveFileUrl(fileUrl, apiBase)), otherBase) == ResolveFileUrl(fileUrl, apiBase)
  {
    if TruthyText(fileUrl) && !HasHttpScheme(fileUrl.value) {
      var server := ServerBase(apiBase);
      var tail := "/" + Relative(fileUrl.value);
      if StartsWithIgnoringCase(server, "http://") {
        PrefixIgnoringCaseExtends(server, tail, "http://");
      } else {
        PrefixIgnoringCaseExtends(server, tail, "https://");
      }
      assert server + "/" + Relative(fileUrl.value) == server + tail;
    }
  }

  /** A row of `/teacher/assigned-classes`. */
  datatype AssignedClass = AssignedClass(classId: nat, className: string, sectionId: Option<nat>, sectionName: Option<string>)

  /** The position of the first kept row with key `k`, or -1. */
  function FirstKept<R, K(==)>(rows: seq<R>, keep: R -> bool, key: R -> K, k: K): (f: int)
    ensures -1 <= f < |rows|
    ensures f >= 0 ==> keep(rows[f]) && key(rows[f]) == k
    ensures f >= 0 ==> forall j :: 0 <= j < f ==> !(keep(rows[j]) && key(rows[j]) == k)
    ensures f == -1 ==> forall j :: 0 <= j < |rows| ==> !(keep(rows[j]) && key(rows[j]) == k)
  {
    if rows == [] then -1
    else
      var f := FirstKept(rows[..|rows| - 1], keep, key, k);
      if f >= 0 then f
      else if keep(rows[|rows| - 1]) && key(rows[|rows| - 1]) == k then |rows| - 1
      else -1
  }

  /** The rows a "seen" set lets through, in order: of the kept rows, each one whose key no
      earlier kept row had. */
  function FirstSeen<R, K(==)>(rows: seq<R>, keep: R -> bool, key: R -> K): seq<R> {
    if rows == [] then []
    else
      var prev := FirstSeen(rows[..|rows| - 1], keep, key);
      var last := rows[|rows| - 1];
      if keep(last) && forall p :: 0 <= p < |prev| ==> key(prev[p]) != key(last) then prev + [last] else prev
  }

  /** Some row of `r` has key `k`. */
  ghost predicate HasKey<R, K>(r: seq<R>, key: R -> K, k: K) {
    exists p :: 0 <= p < |r| && key(r[p]) == k
  }

  /** Appending a row adds its key and no other. */
  lemma HasKeyAppend<R, K>(r: seq<R>, x: R, key: R -> K)
    ensures forall k :: HasKey(r + [x], key, k) <==> HasKey(r, key, k) || key(x) == k
  {
    forall k ensures HasKey(r + [x], key, k) <==> HasKey(r, key, k) || key(x) == k {
      if HasKey(r, key, k) {
        var p :| 0 <= p < |r| && key(r[p]) == k;
        assert (r + [x])[p] == r[p];
      }
      if key(x) == k {
        assert (r + [x])[|r|] == x;
      }
      if HasKey(r + [x], key, k) {
        var p :| 0 <= p < |r + [x]| && key((r + [x])[p]) == k;
        if p < |r| {
          assert (r + [x])[p] == r[p];
        }
      }
    }
  }

  /** Every kept key is represented. */
  lemma {:induction false} FirstSeenCovers<R, K>(rows: seq<R>, keep: R -> bool, key: R -> K)
    ensures forall j :: 0 <= j < |rows| && keep(rows[j]) ==> HasKey(FirstSeen(rows, keep, key), key, key(rows[j]))
  {
    if rows != [] {
      var init := rows[..|rows| - 1];
      FirstSeenCovers(init, keep, key);
      var prev := FirstSeen(init, keep, key);
      var r := FirstSeen(rows, keep, key);
      var last := rows[|rows| - 1];
      assert r == if keep(last) && forall p :: 0 <= p < |prev| ==> key(prev[p]) != key(last) then prev + [last] else prev;
      assert prev <= r;
      forall j | 0 <= j < |rows| && keep(rows[j]) ensures HasKey(r, key, key(rows[j])) {
        if j < |init| {
          assert rows[j] == init[j];
          assert HasKey(prev, key, key(init[j]));
          var p :| 0 <= p < |prev| && key(prev[p]) == key(init[j]);
          assert r[p] == prev[p];
        } else if |r| > |prev| {
          assert r[|prev|] == rows[j];
        } else {
          var p :| 0 <= p < |prev| && key(prev[p]) == key(rows[j]);
          assert r[p] == prev[p];
        }
      }
    }
  }

  /** Only kept rows are let through. */
  lemma {:induction false} FirstSeenKept<R, K>(rows: seq<R>, keep: R -> bool, key: R -> K)
    ensures forall x :: x in FirstSeen(rows, keep, key) ==> keep(x) && x in rows
  {
    if rows != [] {
      var init := rows[..|rows| - 1];
      FirstSeenKept(init, keep, key);
      assert forall x :: x in init ==> x in rows;
    }
  }

  /** The last row is appended exactly when its key is new among the kept rows before it. */
  lemma FirstSeenAppends<R, K>(rows: seq<R>, keep: R -> bool, key: R -> K)
    requires rows != []
    ensures var init := rows[..|rows| - 1];
      var last := rows[|rows| - 1];
      FirstSeen(rows, keep, key) ==
        if keep(last) && FirstKept(init, keep, key, key(last)) == -1 then FirstSeen(init, keep, key) + [last]
        else FirstSeen(init, keep, key)
  {
    var init := rows[..|rows| - 1];
    var last := rows[|rows| - 1];
    var prev := FirstSeen(init, keep, key);
    FirstSeenCovers(init, keep, key);
    FirstSeenKept(init, keep, key);
    var f := FirstKept(init, keep, key, key(last));
    if keep(last) && !forall p :: 0 <= p < |prev| ==> key(prev[p]) != key(last) {
      var p :| 0 <= p < |prev| && key(prev[p]) == key(last);
      assert prev[p] in prev;
      var j :| 0 <= j < |init| && init[j] == prev[p];
    }
  }

  /** Every row let through is the first kept row with its key, and they come in the order
      of those first appearances (so no key twice). */
  lemma {:induction false} FirstSeenFirstInOrder<R, K>(rows: seq<R>, keep: R -> bool, key: R -> K)
    ensures var r := FirstSeen(rows, keep, key);
      && (forall p :: 0 <= p < |r| ==>
            0 <= FirstKept(rows, keep, key, key(r[p])) && rows[FirstKept(rows, keep, key, key(r[p]))] == r[p])
      && (forall p, q :: 0 <= p < q < |r| ==>
            FirstKept(rows, keep, key, key(r[p])) < FirstKept(rows, keep, key, key(r[q])))
  {
    if rows != [] {
      var init := rows[..|rows| - 1];
      var last := rows[|rows| - 1];
      FirstSeenFirstInOrder(init, keep, key);
      FirstSeenAppends(rows, keep, key);
      var prev := FirstSeen(init, keep, key);
      var r := FirstSeen(rows, keep, key);
      assert forall j :: 0 <= j < |init| ==> rows[j] == init[j];
      assert forall p :: 0 <= p < |prev| ==>
        FirstKept(rows, keep, key, key(prev[p])) == FirstKept(init, keep, key, key(prev[p]));
      if r != prev {
        assert FirstKept(rows, keep, key, key(last)) == |rows| - 1;
      }
    }
  }

  /** No key is let through twice. */
  lemma FirstSeenUniqueKeys<R, K>(rows: seq<R>, keep: R -> bool, key: R -> K)
    ensures var r := FirstSeen(rows, keep, key);
      forall p, q :: 0 <= p < q < |r| ==> key(r[p]) != key(r[q])
  {
    FirstSeenFirstInOrder(rows, keep, key);
  }

  datatype ClassOption = ClassOption(id: nat, name: string)

  datatype SectionOption = SectionOption(id: nat, name: Option<string>)

  function ClassKey(r: AssignedClass): nat {
    r.classId
  }

  function SectionKey(r: AssignedClass): Option<nat> {
    r.sectionId
  }

  /** The rows `sectionOptions` looks at: the selected class's, with a truthy section. */
  function SectionRowOf(classId: nat): AssignedClass -> bool {
    (r: AssignedClass) => r.classId == classId && Truthy(r.sectionId)
  }

  /** `classOptions`: the distinct classes in the order they first appear, each named from
      its first row. */
  method ClassOptions(rows: seq<AssignedClass>) returns (options: seq<ClassOption>)
    ensures |options| == |FirstSeen(rows, (r: AssignedClass) => true, ClassKey)|
    ensures forall p :: 0 <= p < |options| ==>
              var first := FirstSeen(rows, (r: AssignedClass) => true, ClassKey)[p];
              options[p] == ClassOption(first.classId, first.className)
  {
    var seen: set<nat> := {};
    options := [];
    ghost var picked: seq<AssignedClass> := [];
    var i := 0;
    while i < |rows|
      invariant 0 <= i <= |rows|
      invariant picked == FirstSeen(rows[..i], (r: AssignedClass) => true, ClassKey)
      invariant |options| == |picked|
      invariant forall p :: 0 <= p < |picked| ==> options[p] == ClassOption(picked[p].classId, picked[p].className)
      invariant forall k :: k in seen <==> HasKey(picked, ClassKey, k)
    {
      var row := rows[i];
      assert rows[..i + 1][..i] == rows[..i];
      if row.classId !in seen {
        HasKeyAppend(picked, row, ClassKey);
        seen := seen + {row.classId};
        options := options + [ClassOption(row.classId, row.className)];
        picked := picked + [row];
      }
      i := i + 1;
    }
    assert rows[..i] == rows;
  }

  /** `sectionOptions`: none without a selected class; otherwise the distinct truthy sections
      of that class's rows in the order they first appear, each named from its first row. */
  method SectionOptions(rows: seq<AssignedClass>, selectedClass: Option<nat>) returns (options: seq<SectionOption>)
    ensures selectedClass.None? ==> options == []
    ensures selectedClass.Some? ==>
              var firsts := FirstSeen(rows, SectionRowOf(selectedClass.value), SectionKey);
              && |options| == |firsts|
              && forall p :: 0 <= p < |options| ==>
                   firsts[p].sectionId.Some? && options[p] == SectionOption(firsts[p].sectionId.value, firsts[p].sectionName)
  {
    if selectedClass.None? {
      return [];
    }
    var keep := SectionRowOf(selectedClass.value);
    var seen: set<nat> := {};
    options := [];
    ghost var picked: seq<AssignedClass> := [];
    var i := 0;
    while i < |rows|
      invariant 0 <= i <= |rows|
      invariant picked == FirstSeen(rows[..i], keep, SectionKey)
      invariant forall y :: y in picked ==> keep(y)
      invariant |options| == |picked|
      invariant forall p :: 0 <= p < |picked| ==>
                  picked[p].sectionId.Some? && options[p] == SectionOption(picked[p].sectionId.value, picked[p].sectionName)
      invariant seen == set y | y in picked && y.sectionId.Some? :: y.sectionId.value
    {
      var row := rows[i];
      assert rows[..i + 1][..i] == rows[..i];
      if row.classId == selectedClass.value && Truthy(row.sectionId) {
        if row.sectionId.value !in seen {
          seen := seen + {row.sectionId.value};
          options := options + [SectionOption(row.sectionId.value, row.sectionName)];
          picked := picked + [row];
        } else {
          ghost var y :| y in picked && y.sectionId.Some? && y.sectionId.value == row.sectionId.value;
        }
      }
      i := i + 1;
    }
    assert rows[..i] == rows;
  }

  /** The material form; selects hold an id or nothing (`''`). */
  datatype MaterialForm = MaterialForm(
    classId: Option<nat>, sectionId: Option<nat>, subjectId: Option<nat>,
    title: string, description: Option<string>, fileUrl: Option<string>)

  datatype MaterialPayload = MaterialPayload(
    classId: Option<nat>, sectionId: Option<nat>, subjectId: nat, title: string, description: string, fileUrl: string)

  datatype Submission = Refused(message: string) | Send(payload: MaterialPayload)

  /** `s?.trim() || ''`. */
  function TrimOrEmpty(s: Option<string>): (r: string)
    ensures s.None? ==> r == ""
    ensures s.Some? ==> r == Trim(s.value)
  {
    if s.None? then "" else Trim(s.value)
  }

  /** `submit`: nothing is sent without a subject or with a blank title; the body carries the
      trimmed texts and null for an unselected class or section. */
  function Submit(form: MaterialForm): (r: Submission)
    ensures r.Refused? <==> form.subjectId.None? || Trim(form.title) == ""
    ensures r.Refused? ==> r.message == "Subject and title are required"
    ensures r.Send? ==>
              && r.payload.subjectId == form.subjectId.value
              && r.payload.classId == form.classId && r.payload.sectionId == form.sectionId
              && r.payload.title == Trim(form.title) && r.payload.title != ""
              && Trim(r.payload.title) == r.payload.title
              && r.payload.description == TrimOrEmpty(form.description)
              && r.payload.fileUrl == TrimOrEmpty(form.fileUrl)
  {
    if form.subjectId.None? || Trim(form.title) == "" then Refused("Subject and title are required")
    else
      TrimIdempotent(form.title);
      Send(MaterialPayload(form.classId, form.sectionId, form.subjectId.value, Trim(form.title),
                           TrimOrEmpty(form.description), TrimOrEmpty(form.fileUrl)))
  }
}
