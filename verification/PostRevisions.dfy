/** Grace-period edits: folding amendments into the open revision. */
module PostRevisions {
  import opened Collections
  import opened Options

  // ---------------------------------------------------------------- modifications

  /** A field value; nil and the empty text print the same. */
  datatype Value = Nil | Text(s: string)

  function ToS(v: Value): string {
    match v
    case Nil => ""
    case Text(s) => s
  }

  type Fields = map<string, Value>

  function Get(fields: Fields, f: string): Value {
    if f in fields then fields[f] else Nil
  }

  /** Old and new value per field. */
  type Modifications = map<string, (Value, Value)>

  /** The fields that an edit changed, with both values. */
  function Changes(before: Fields, after: Fields): Modifications {
    map f | f in before.Keys + after.Keys && Get(before, f) != Get(after, f) :: (Get(before, f), Get(after, f))
  }

  /** One changed field folded into the revision's modifications. */
  function FoldOne(mods: Modifications, f: string, change: (Value, Value)): Modifications {
    if f in mods then
      if ToS(mods[f].0) != ToS(change.1) then mods[f := (mods[f].0, change.1)] else mods - {f}
    else mods[f := change]
  }

  function FoldedKeys(mods: Modifications, changes: Modifications): set<string> {
    set f | f in mods.Keys + changes.Keys && (f in mods && f in changes ==> ToS(mods[f].0) != ToS(changes[f].1))
  }

  /** All changed fields folded in, in whatever order. */
  function Fold(mods: Modifications, changes: Modifications): Modifications {
    map f | f in FoldedKeys(mods, changes) ::
      if f in mods && f in changes then (mods[f].0, changes[f].1) else if f in mods then mods[f] else changes[f]
  }

  datatype Revision = Revision(userId: int, modifications: Modifications)

  /** The counters of a post and its revisions by number. */
  datatype PostState = PostState(version: int, publicVersion: int, lastEditorId: int, revisions: map<int, Revision>)

  ghost predicate IsNewest(revisions: map<int, Revision>, n: int) {
    n in revisions && forall k :: k in revisions ==> k <= n
  }

  lemma NewestExists(revisions: map<int, Revision>)
    requires revisions != map[]
    ensures exists n :: IsNewest(revisions, n)
  {
    ItemsOf(revisions);
    var item :| item in revisions.Items;
    var n := Least(revisions.Keys, k => -k, item.0);
    assert IsNewest(revisions, n);
  }

  /** The author of the newest revision, or else of the post. */
  ghost function LastAuthor(revisions: map<int, Revision>, userId: int): int {
    if revisions == map[] then userId
    else
      NewestExists(revisions);
      var n :| IsNewest(revisions, n);
      revisions[n].userId
  }

  /** An edit folded into the revision of the current version. A revision left without modifications goes away
      together with its version; without a revision nothing happens. */
  ghost function Amended(p: PostState, userId: int, changes: Modifications): PostState {
    if p.version !in p.revisions then p
    else
      var mods := Fold(p.revisions[p.version].modifications, changes);
      if mods == map[] then
        var rest := p.revisions - {p.version};
        PostState(p.version - 1, p.publicVersion - 1, LastAuthor(rest, userId), rest)
      else p.(revisions := p.revisions[p.version := Revision(p.lastEditorId, mods)])
  }

  /** After the removal of the open revision the last editor is the author of the highest numbered revision left,
      or the owner of the post. */
  ghost predicate RestoresEditor(q: PostState, userId: int) {
    && (q.revisions == map[] ==> q.lastEditorId == userId)
    && (q.revisions != map[] ==>
          exists n :: n in q.revisions && (forall k :: k in q.revisions ==> k <= n)
                      && q.lastEditorId == q.revisions[n].userId)
  }

  lemma RemovalRestoresEditor(p: PostState, userId: int, changes: Modifications)
    requires p.version in p.revisions
    ensures var q := Amended(p, userId, changes);
            && (q.version < p.version <==> p.version !in q.revisions)
            && (q.version < p.version ==> RestoresEditor(q, userId))
            && (q.version >= p.version ==> q.lastEditorId == p.lastEditorId == q.revisions[p.version].userId)
  {
    hide Fold;
    var rest := p.revisions - {p.version};
    if rest != map[] {
      NewestExists(rest);
      var n :| IsNewest(rest, n);
      NewestIsAuthor(rest, userId, n);
    }
  }

  lemma NewestIsAuthor(revisions: map<int, Revision>, userId: int, n: int)
    requires IsNewest(revisions, n)
    ensures LastAuthor(revisions, userId) == revisions[n].userId
  {
    NewestExists(revisions);
    var m :| IsNewest(revisions, m) && LastAuthor(revisions, userId) == revisions[m].userId;
    assert m <= n <= m;
  }

  class Post {
    const userId: int
    var version: int
    var publicVersion: int
    var lastEditorId: int
    var revisions: map<int, Revision>

    function State(): PostState
      reads this
    {
      PostState(version, publicVersion, lastEditorId, revisions)
    }

    constructor (userId: int)
      ensures this.userId == userId && State() == NewPost(userId)
    {
      this.userId := userId;
      version, publicVersion, lastEditorId, revisions := 1, 1, userId, map[];
    }

    /** An edit outside the grace period starts a new version. */
    method StartVersion()
      modifies this`version, this`publicVersion
      ensures State() == NextVersion(old(State()))
    {
      version := version + 1;
      publicVersion := publicVersion + 1;
    }

    /** The revision of the new version. */
    method CreateRevision(changes: Modifications)
      modifies this`revisions
      ensures State() == WithRevision(old(State()), changes)
    {
      revisions := revisions[version := Revision(lastEditorId, changes)];
    }

    /** Folds an edit field by field into the revision of the current version. */
    method UpdateRevision(changes: Modifications)
      modifies this
      ensures State() == Amended(old(State()), userId, changes)
      ensures version < old(version) ==> RestoresEditor(State(), userId)
      ensures version == old(version) ==> lastEditorId == old(lastEditorId)
    {
      if version in revisions { RemovalRestoresEditor(State(), userId, changes); }
      hide RestoresEditor;
      if version !in revisions {
        return;
      }
      var mods := revisions[version].modifications;
      ghost var start := mods;
      assert start == Fold(start, changes - changes.Keys);
      var todo := changes.Keys;
      while todo != {}
        invariant todo <= changes.Keys
        invariant mods == Fold(start, changes - todo)
        invariant State() == old(State())
        decreases todo
      {
        var f :| f in todo;
        FoldStep(start, changes, todo, f);
        mods := FoldOne(mods, f, changes[f]);
        todo := todo - {f};
      }
      assert changes - todo == changes;
      hide Fold;
      if mods == map[] {
        revisions := revisions - {version};
        if revisions == map[] {
          lastEditorId := userId;
        } else {
          var n := Newest(revisions);
          lastEditorId := revisions[n].userId;
        }
        version := version - 1;
        publicVersion := publicVersion - 1;
      } else {
        revisions := revisions[version := Revision(lastEditorId, mods)];
      }
    }

    static method Newest(revisions: map<int, Revision>) returns (n: int)
      requires revisions != map[]
      ensures IsNewest(revisions, n)
    {
      var rest := revisions.Items;
      ItemsOf(revisions);
      var item :| item in rest;
      n := item.0;
      while rest != {}
        invariant n in revisions && rest <= revisions.Items
        invariant forall k :: k in revisions && (k, revisions[k]) !in rest ==> k <= n
        decreases rest
      {
        var next :| next in rest;
        if n < next.0 { n := next.0; }
        rest := rest - {next};
      }
    }
  }

  function NewPost(userId: int): PostState { PostState(1, 1, userId, map[]) }

  function NextVersion(p: PostState): PostState {
    p.(version := p.version + 1, publicVersion := p.publicVersion + 1)
  }

  function WithRevision(p: PostState, changes: Modifications): PostState {
    p.(revisions := p.revisions[p.version := Revision(p.lastEditorId, changes)])
  }

  lemma ItemsOf(m: map<int, Revision>)
    ensures m.Items == {} ==> m == map[]
  {
    assert forall k :: k in m ==> (k, m[k]) in m.Items;
  }

  lemma FoldStep(mods: Modifications, changes: Modifications, todo: set<string>, f: string)
    requires f in todo && todo <= changes.Keys
    ensures FoldOne(Fold(mods, changes - todo), f, changes[f]) == Fold(mods, changes - (todo - {f}))
  {
    var (was, now) := (changes - todo, changes - (todo - {f}));
    assert now == was[f := changes[f]];
    var (m, m') := (FoldOne(Fold(mods, was), f, changes[f]), Fold(mods, now));
    forall g ensures (g in m <==> g in m') && (g in m && g in m' ==> m[g] == m'[g]) {
    }
  }

  // ---------------------------------------------------------------- what the modifications mean

  /** Up to printing, exactly the fields that differ from the base, each with base and current value. */
  ghost predicate Net(mods: Modifications, base: Fields, current: Fields) {
    forall f: string ::
      && (f in mods <==> ToS(Get(base, f)) != ToS(Get(current, f)))
      && (f in mods ==> ToS(mods[f].0) == ToS(Get(base, f)) && mods[f].1 == Get(current, f))
  }

  /** A change that cannot be seen in print: between nil and the empty text. */
  predicate Silent(change: (Value, Value)) { ToS(change.0) == ToS(change.1) }

  /** An amendment keeps the modifications net exactly when it changes no unmodified field silently. */
  lemma AmendmentKeepsNetIff(mods: Modifications, base: Fields, current: Fields, next: Fields)
    requires Net(mods, base, current)
    ensures Net(Fold(mods, Changes(current, next)), base, next)
            <==> forall f :: f in Changes(current, next) && f !in mods ==> !Silent(Changes(current, next)[f])
  {
    var changes := Changes(current, next);
    var folded := Fold(mods, changes);
    var quiet := forall f :: f in changes && f !in mods ==> !Silent(changes[f]);
    if quiet {
      forall f: string
        ensures f in folded <==> ToS(Get(base, f)) != ToS(Get(next, f))
        ensures f in folded ==> ToS(folded[f].0) == ToS(Get(base, f)) && folded[f].1 == Get(next, f)
      {
        assert f in changes <==> Get(current, f) != Get(next, f);
        assert f in mods <==> ToS(Get(base, f)) != ToS(Get(current, f));
      }
    } else {
      var f :| f in changes && f !in mods && Silent(changes[f]);
      assert f in folded;
      assert ToS(Get(base, f)) == ToS(Get(current, f)) == ToS(Get(next, f));
    }
  }

  predicate SameText(a: Fields, b: Fields) {
    forall f :: f in a.Keys + b.Keys ==> ToS(Get(a, f)) == ToS(Get(b, f))
  }

  lemma EmptyMeansSame(mods: Modifications, base: Fields, current: Fields)
    requires Net(mods, base, current)
    ensures mods == map[] <==> SameText(base, current)
  {
    if SameText(base, current) {
      forall f ensures f !in mods {
        assert f in base.Keys + current.Keys || Get(base, f) == Get(current, f);
      }
    } else {
      var f :| f in base.Keys + current.Keys && ToS(Get(base, f)) != ToS(Get(current, f));
      assert f in mods;
    }
  }

  /** Every one of these fields holds a text. */
  ghost predicate TextFields(fields: Fields, names: set<string>) {
    fields.Keys == names && forall f :: f in names ==> fields[f].Text?
  }

  /** Between text fields every change shows. */
  lemma TextChangesShow(base: Fields, current: Fields, names: set<string>)
    requires TextFields(base, names) && TextFields(current, names)
    ensures forall f :: f in Changes(base, current) ==> !Silent(Changes(base, current)[f])
    ensures Net(Changes(base, current), base, current)
    ensures SameText(base, current) <==> base == current
  {
    if SameText(base, current) {
      forall f | f in names ensures base[f] == current[f] {
        assert f in base.Keys + current.Keys;
        assert ToS(Get(base, f)) == ToS(Get(current, f));
      }
    }
  }

  // ---------------------------------------------------------------- runs of edits

  /** An edit: the new fields, its author, and whether it starts a new version. */
  datatype Edit = Edit(next: Fields, editor: int, newVersion: bool)

  ghost function EditPost(p: PostState, userId: int, current: Fields, e: Edit): PostState {
    var q := p.(lastEditorId := e.editor);
    if e.newVersion then WithRevision(NextVersion(q), Changes(current, e.next))
    else Amended(q, userId, Changes(current, e.next))
  }

  /** The fields as they were before each revision that still exists, oldest first. */
  ghost function BasesStep(bases: seq<Fields>, current: Fields, e: Edit): seq<Fields> {
    if e.newVersion then bases + [current]
    else if bases != [] && bases[|bases| - 1] == e.next then bases[..|bases| - 1]
    else bases
  }

  ghost function Current(start: Fields, edits: seq<Edit>): Fields {
    if edits == [] then start else edits[|edits| - 1].next
  }

  ghost function PostAfter(p: PostState, userId: int, start: Fields, edits: seq<Edit>): PostState {
    if edits == [] then p
    else
      var init := edits[..|edits| - 1];
      EditPost(PostAfter(p, userId, start, init), userId, Current(start, init), edits[|edits| - 1])
  }

  ghost function BasesAfter(bases: seq<Fields>, start: Fields, edits: seq<Edit>): seq<Fields> {
    if edits == [] then bases
    else
      var init := edits[..|edits| - 1];
      BasesStep(BasesAfter(bases, start, init), Current(start, init), edits[|edits| - 1])
  }

  /** Revision first + i leads from its base to the next one, the revision of the current version to the current
      fields; there is one version per base. */
  ghost predicate Chained(p: PostState, bases: seq<Fields>, first: int, current: Fields) {
    && p.version == p.publicVersion == first + |bases| - 1
    && first - 1 !in p.revisions
    && forall i :: 0 <= i < |bases| ==> Linked(p, bases, first, current, i)
  }

  ghost predicate Linked(p: PostState, bases: seq<Fields>, first: int, current: Fields, i: nat)
    requires i < |bases|
  {
    && first + i in p.revisions
    && Net(p.revisions[first + i].modifications, bases[i], if i + 1 < |bases| then bases[i + 1] else current)
  }

  ghost predicate AllText(bases: seq<Fields>, names: set<string>) {
    forall i :: 0 <= i < |bases| ==> TextFields(bases[i], names)
  }

  lemma NewVersionKeepsChain(p: PostState, userId: int, bases: seq<Fields>, first: int, current: Fields, e: Edit,
                             names: set<string>)
    requires Chained(p, bases, first, current) && TextFields(current, names) && TextFields(e.next, names)
    requires e.newVersion
    ensures Chained(EditPost(p, userId, current, e), bases + [current], first, e.next)
  {
    TextChangesShow(current, e.next, names);
    hide Net, Changes, TextFields;
    var q := EditPost(p, userId, current, e);
    forall i | 0 <= i < |bases + [current]| ensures Linked(q, bases + [current], first, e.next, i) {
      if i < |bases| { assert Linked(p, bases, first, current, i); }
    }
  }

  /** The modifications after an amendment: net again, and empty exactly when every field is back at the base. */
  lemma AmendmentStaysNet(mods: Modifications, base: Fields, current: Fields, next: Fields, names: set<string>)
    requires Net(mods, base, current)
    requires TextFields(base, names) && TextFields(current, names) && TextFields(next, names)
    ensures var folded := Fold(mods, Changes(current, next));
            Net(folded, base, next) && (folded == map[] <==> base == next)
  {
    TextChangesShow(current, next, names);
    TextChangesShow(base, next, names);
    AmendmentKeepsNetIff(mods, base, current, next);
    hide Net, Fold, Changes, SameText, TextFields;
    EmptyMeansSame(Fold(mods, Changes(current, next)), base, next);
  }

  /** An amendment lowers the version by one exactly when it brings every field back to the base of the open
      revision. */
  lemma AmendmentKeepsChain(p: PostState, userId: int, bases: seq<Fields>, first: int, current: Fields, e: Edit,
                            names: set<string>)
    requires Chained(p, bases, first, current) && TextFields(current, names) && TextFields(e.next, names)
    requires AllText(bases, names) && !e.newVersion
    ensures Chained(EditPost(p, userId, current, e), BasesStep(bases, current, e), first, e.next)
    ensures EditPost(p, userId, current, e).version
         == p.version - (if bases != [] && bases[|bases| - 1] == e.next then 1 else 0)
  {
    hide Net, Changes, TextFields, Fold, LastAuthor;
    var (q, r) := (EditPost(p, userId, current, e), BasesStep(bases, current, e));
    if bases != [] {
      var last := |bases| - 1;
      assert Linked(p, bases, first, current, last);
      AmendmentStaysNet(p.revisions[p.version].modifications, bases[last], current, e.next, names);
      forall i | 0 <= i < |r| ensures Linked(q, r, first, e.next, i) {
        assert Linked(p, bases, first, current, i);
      }
    }
  }

  /** In every run of edits over text fields each revision holds exactly the net change from its base to the next
      one, the open revision to the current fields, and there are as many versions as revisions: one more for each
      new version, one fewer for each amendment that brought every field back. */
  lemma {:induction false} RunsStayNet(p: PostState, userId: int, bases: seq<Fields>, first: int, start: Fields,
                                       edits: seq<Edit>, names: set<string>)
    requires Chained(p, bases, first, start) && TextFields(start, names) && AllText(bases, names)
    requires forall i :: 0 <= i < |edits| ==> TextFields(edits[i].next, names)
    ensures AllText(BasesAfter(bases, start, edits), names)
    ensures Chained(PostAfter(p, userId, start, edits), BasesAfter(bases, start, edits), first, Current(start, edits))
  {
    hide Chained, TextFields, EditPost;
    if edits != [] {
      var (init, e) := (edits[..|edits| - 1], edits[|edits| - 1]);
      RunsStayNet(p, userId, bases, first, start, init, names);
      var (q, r, c) := (PostAfter(p, userId, start, init), BasesAfter(bases, start, init), Current(start, init));
      assert TextFields(c, names);
      if e.newVersion {
        NewVersionKeepsChain(q, userId, r, first, c, e, names);
      } else {
        AmendmentKeepsChain(q, userId, r, first, c, e, names);
      }
    }
  }

  // ---------------------------------------------------------------- authors

  /** Who made the last edit that went into each revision that is left. */
  ghost function AuthorsStep(authors: seq<int>, bases: seq<Fields>, e: Edit): seq<int>
    requires |authors| == |bases|
  {
    if e.newVersion then authors + [e.editor]
    else if bases == [] then authors
    else if bases[|bases| - 1] == e.next then authors[..|authors| - 1]
    else authors[..|authors| - 1] + [e.editor]
  }

  ghost function AuthorsAfter(authors: seq<int>, bases: seq<Fields>, start: Fields, edits: seq<Edit>): (r: seq<int>)
    requires |authors| == |bases|
    ensures |r| == |BasesAfter(bases, start, edits)|
  {
    if edits == [] then authors
    else
      var init := edits[..|edits| - 1];
      AuthorsStep(AuthorsAfter(authors, bases, start, init), BasesAfter(bases, start, init), edits[|edits| - 1])
  }

  /** The last editor after one more edit: its editor, or, when it undid the open revision, the author of the one
      before, or the owner. */
  ghost function EditorStep(authors: seq<int>, bases: seq<Fields>, userId: int, e: Edit): int
    requires |authors| == |bases|
  {
    if !e.newVersion && bases != [] && bases[|bases| - 1] == e.next
    then if |authors| == 1 then userId else authors[|authors| - 2]
    else e.editor
  }

  /** The revisions are those numbered from `first` on, by these authors. */
  ghost predicate Authored(p: PostState, authors: seq<int>, first: int) {
    && p.version == first + |authors| - 1
    && (forall n :: n in p.revisions <==> first <= n < first + |authors|)
    && forall n :: first <= n < first + |authors| ==> p.revisions[n].userId == authors[n - first]
  }

  lemma EditKeepsAuthors(p: PostState, userId: int, bases: seq<Fields>, authors: seq<int>, first: int,
                         current: Fields, e: Edit, names: set<string>)
    requires Chained(p, bases, first, current) && Authored(p, authors, first) && |authors| == |bases|
    requires TextFields(current, names) && TextFields(e.next, names) && AllText(bases, names)
    ensures Authored(EditPost(p, userId, current, e), AuthorsStep(authors, bases, e), first)
    ensures EditPost(p, userId, current, e).lastEditorId == EditorStep(authors, bases, userId, e)
  {
    var q := EditPost(p, userId, current, e);
    hide Net, Changes, TextFields, Fold, AllText;
    if !e.newVersion && bases != [] {
      AmendmentKeepsChain(p, userId, bases, first, current, e, names);
      var was := p.(lastEditorId := e.editor);
      RemovalRestoresEditor(was, userId, Changes(current, e.next));
      hide Chained;
      if q.version < p.version && |authors| > 1 {
        var n := first + |authors| - 2;
        assert n in q.revisions && q.revisions[n] == p.revisions[n];
      }
    }
  }

  /** In every run of edits the revisions left carry the authors of the last edits that went into them, and the last
      editor is the one of the last edit unless that removed its revision. */
  lemma {:induction false} RunsKeepAuthors(p: PostState, userId: int, bases: seq<Fields>, authors: seq<int>, first: int,
                                           start: Fields, edits: seq<Edit>, names: set<string>)
    requires Chained(p, bases, first, start) && Authored(p, authors, first) && |authors| == |bases|
    requires TextFields(start, names) && AllText(bases, names)
    requires forall i :: 0 <= i < |edits| ==> TextFields(edits[i].next, names)
    ensures Authored(PostAfter(p, userId, start, edits), AuthorsAfter(authors, bases, start, edits), first)
    ensures edits != [] ==>
              var init := edits[..|edits| - 1];
              PostAfter(p, userId, start, edits).lastEditorId
              == EditorStep(AuthorsAfter(authors, bases, start, init), BasesAfter(bases, start, init), userId,
                            edits[|edits| - 1])
  {
    hide Chained, TextFields, EditPost, Authored, AllText, EditorStep;
    if edits != [] {
      var (init, e) := (edits[..|edits| - 1], edits[|edits| - 1]);
      RunsKeepAuthors(p, userId, bases, authors, first, start, init, names);
      RunsStayNet(p, userId, bases, first, start, init, names);
      var (q, r, c) := (PostAfter(p, userId, start, init), BasesAfter(bases, start, init), Current(start, init));
      EditKeepsAuthors(q, userId, r, AuthorsAfter(authors, bases, start, init), first, c, e, names);
    }
  }

  /** From a new post on: the version is one more than the number of revisions that are left. */
  lemma NewPostsStayNet(userId: int, start: Fields, edits: seq<Edit>, names: set<string>)
    requires TextFields(start, names) && forall i :: 0 <= i < |edits| ==> TextFields(edits[i].next, names)
    ensures Chained(PostAfter(NewPost(userId), userId, start, edits), BasesAfter([], start, edits), 2,
                    Current(start, edits))
    ensures Authored(PostAfter(NewPost(userId), userId, start, edits), AuthorsAfter([], [], start, edits), 2)
  {
    RunsStayNet(NewPost(userId), userId, [], 2, start, edits, names);
    RunsKeepAuthors(NewPost(userId), userId, [], [], 2, start, edits, names);
  }

  /** Amendments to one open revision: it holds the net change to its base, and it and its version are gone
      exactly when one of them brought every field back. */
  lemma {:induction false} OpenRevisionIsNet(p: PostState, userId: int, bases: seq<Fields>, first: int, start: Fields,
                                             edits: seq<Edit>, names: set<string>)
    requires Chained(p, bases, first, start) && TextFields(start, names) && AllText(bases, names) && bases != []
    requires forall i :: 0 <= i < |edits| ==> TextFields(edits[i].next, names) && !edits[i].newVersion
    ensures var (q, base) := (PostAfter(p, userId, start, edits), bases[|bases| - 1]);
            && (q.version < p.version <==> exists i :: 0 <= i < |edits| && edits[i].next == base)
            && (q.version >= p.version ==>
                  q.version == p.version && q.version in q.revisions
                  && Net(q.revisions[q.version].modifications, base, Current(start, edits)))
  {
    RunsStayNet(p, userId, bases, first, start, edits, names);
    BasesShrinkIff(bases, start, edits);
    var r := BasesAfter(bases, start, edits);
    hide Net, TextFields, BasesAfter, PostAfter;
    if |r| == |bases| {
      assert Linked(PostAfter(p, userId, start, edits), r, first, Current(start, edits), |r| - 1);
    }
  }

  lemma {:induction false} BasesShrinkIff(bases: seq<Fields>, start: Fields, edits: seq<Edit>)
    requires bases != [] && forall i :: 0 <= i < |edits| ==> !edits[i].newVersion
    ensures var (r, base) := (BasesAfter(bases, start, edits), bases[|bases| - 1]);
            && |r| <= |bases| && r == bases[..|r|]
            && (|r| < |bases| <==> exists i :: 0 <= i < |edits| && edits[i].next == base)
  {
    if edits != [] {
      var (init, e, base) := (edits[..|edits| - 1], edits[|edits| - 1], bases[|bases| - 1]);
      BasesShrinkIff(bases, start, init);
      assert forall i :: 0 <= i < |init| ==> init[i].next == edits[i].next;
      assert edits[|init|] == e;
      if exists i :: 0 <= i < |init| && init[i].next == base {
        var i :| 0 <= i < |init| && init[i].next == base;
        assert edits[i].next == base;
      }
    }
  }

  /** With nil the modifications can name a field that shows no difference. */
  lemma NilChangeIsRecorded()
    ensures var (base, next) := (map["locale" := Nil], map["locale" := Text("")]);
            && Net(map[], base, base) && !Net(Fold(map[], Changes(base, next)), base, next)
  {
    var (base, next) := (map["locale" := Nil], map["locale" := Text("")]);
    assert "locale" in Changes(base, next);
    assert "locale" in Fold(map[], Changes(base, next));
  }
}
