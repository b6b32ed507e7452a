/** The form's control tree and the pre-order descendant search
    (OrgUtilitiesClass.cs, FindDescendants). A control is identified by its
    path: the child indices leading to it from the root. */
module Controls {
  import opened Wrappers
  import opened Records

  /** The control classes the binding layer distinguishes. */
  datatype Kind = Panel | DropDownList | OtherControl

  /** The state of one control: its client identifier, its class, and the two
      properties the binding layer writes. */
  datatype Widget = Widget(clientId: string, kind: Kind, visible: bool, items: seq<GenericItem>)

  /** A control with its child controls in collection order. */
  datatype Control = Control(widget: Widget, children: seq<Control>)

  type Path = seq<nat>

  /** The control at `p`, if `p` leads to one. */
  function WidgetAt(t: Control, p: Path): Option<Widget>
    decreases |p|
  {
    if p == [] then Some(t.widget)
    else if p[0] < |t.children| then WidgetAt(t.children[p[0]], p[1..])
    else None
  }

  /** The two writes the binding layer performs on a control. */
  datatype Edit = SetVisible(visible: bool) | ReplaceItems(items: seq<GenericItem>)

  function ApplyEdit(w: Widget, e: Edit): Widget {
    match e
    case SetVisible(v) => w.(visible := v)
    case ReplaceItems(xs) => w.(items := xs)
  }

  function EditOpt(o: Option<Widget>, e: Edit): Option<Widget> {
    match o
    case None => None
    case Some(w) => Some(ApplyEdit(w, e))
  }

  /** The tree with the edit applied to the control at `p` (unchanged when
      `p` leads nowhere). */
  function EditAt(t: Control, p: Path, e: Edit): Control
    decreases |p|
  {
    if p == [] then t.(widget := ApplyEdit(t.widget, e))
    else if p[0] < |t.children| then
      t.(children := t.children[p[0] := EditAt(t.children[p[0]], p[1..], e)])
    else t
  }

  /** Editing one control changes that control and nothing else. */
  lemma {:induction false} EditAtWidget(t: Control, p: Path, e: Edit, q: Path)
    ensures WidgetAt(EditAt(t, p, e), q) == if q == p then EditOpt(WidgetAt(t, q), e) else WidgetAt(t, q)
    decreases |p|
  {
    if p != [] && q != [] && p[0] < |t.children| && q[0] == p[0] {
      EditAtWidget(t.children[p[0]], p[1..], e, q[1..]);
      assert q == p <==> q[1..] == p[1..] by {
        assert q == [q[0]] + q[1..] && p == [p[0]] + p[1..];
      }
    }
  }

  /** Applying the same edit twice is applying it once. */
  lemma EditOptTwice(o: Option<Widget>, e: Edit)
    ensures EditOpt(EditOpt(o, e), e) == EditOpt(o, e)
  {
  }

  /** A control found by the search: where it is and what it was. */
  datatype Found = Found(path: Path, widget: Widget)

  /** `fd` names a proper descendant of `t` of class `k`. */
  predicate Located(t: Control, fd: Found, k: Kind) {
    |fd.path| > 0 && WidgetAt(t, fd.path) == Some(fd.widget) && fd.widget.kind == k
  }

  /** The found controls of a child subtree, re-rooted under child `i`. */
  function Under(i: nat, fs: seq<Found>): (r: seq<Found>)
    ensures |r| == |fs|
    ensures forall j :: 0 <= j < |r| ==> r[j] == Found([i] + fs[j].path, fs[j].widget)
  {
    seq(|fs|, j requires 0 <= j < |fs| => Found([i] + fs[j].path, fs[j].widget))
  }

  lemma LocatedUnder(t: Control, i: nat, fs: seq<Found>, k: Kind)
    requires i < |t.children|
    requires forall j :: 0 <= j < |fs| ==> Located(t.children[i], fs[j], k)
    ensures forall j :: 0 <= j < |fs| ==> Located(t, Under(i, fs)[j], k) && Under(i, fs)[j].path[0] == i
  {
    forall j | 0 <= j < |fs|
      ensures Located(t, Under(i, fs)[j], k) && Under(i, fs)[j].path[0] == i
    {
      var p := [i] + fs[j].path;
      assert p[1..] == fs[j].path;
    }
  }

  /** `FindDescendants<TControl>`: every proper descendant of class `k`, each
      child before that child's own descendants. */
  function FindDescendants(t: Control, k: Kind): (r: seq<Found>)
    ensures forall j :: 0 <= j < |r| ==> Located(t, r[j], k)
    decreases t, 1
  {
    DescendantsFrom(t, 0, k)
  }

  /** The search over children `i..` of `t`. */
  function DescendantsFrom(t: Control, i: nat, k: Kind): (r: seq<Found>)
    requires i <= |t.children|
    ensures forall j :: 0 <= j < |r| ==> Located(t, r[j], k) && i <= r[j].path[0] < |t.children|
    decreases t, 0, |t.children| - i
  {
    if i == |t.children| then []
    else
      var c := t.children[i];
      var here := if c.widget.kind == k then [Found([i], c.widget)] else [];
      var below := FindDescendants(c, k);
      LocatedUnder(t, i, below, k);
      assert forall j :: 0 <= j < |here| ==> Located(t, here[j], k) && here[j].path[0] == i by {
        assert [i][1..] == [];
        assert WidgetAt(t, [i]) == WidgetAt(c, []) == Some(c.widget);
      }
      here + Under(i, below) + DescendantsFrom(t, i + 1, k)
  }

  /** `FindDescendants` on a possibly-null parent: null is an error. */
  function FindDescendantsOf(parent: Option<Control>, k: Kind): (r: Result<seq<Found>, Error>)
    ensures r.Failure? <==> parent.None?
    ensures r.Failure? ==> r.error == NullControl
    ensures r.Success? ==> forall j :: 0 <= j < |r.value| ==> Located(parent.value, r.value[j], k)
  {
    match parent
    case None => Failure(NullControl)
    case Some(t) => Success(FindDescendants(t, k))
  }

  // ---------------------------------------------------------------------
  // Order and completeness of the search

  /** Pre-order on paths: a control comes before its descendants, and an
      earlier sibling's whole subtree before a later sibling's. */
  predicate Before(p: Path, q: Path)
    decreases |p|
  {
    |q| > 0 && (|p| == 0 || p[0] < q[0] || (p[0] == q[0] && Before(p[1..], q[1..])))
  }

  /** The found controls are listed in strict pre-order. */
  predicate InPreOrder(fs: seq<Found>) {
    forall a, b :: 0 <= a < b < |fs| ==> Before(fs[a].path, fs[b].path)
  }

  lemma {:induction false} BeforeIrreflexive(p: Path)
    ensures !Before(p, p)
    decreases |p|
  {
    if |p| > 0 {
      BeforeIrreflexive(p[1..]);
    }
  }

  lemma BeforeUnder(i: nat, p: Path, q: Path)
    requires Before(p, q)
    ensures Before([i] + p, [i] + q)
  {
    assert ([i] + p)[1..] == p && ([i] + q)[1..] == q;
  }

  lemma UnderPreOrder(i: nat, fs: seq<Found>)
    requires InPreOrder(fs)
    ensures InPreOrder(Under(i, fs))
  {
    var u := Under(i, fs);
    forall a, b | 0 <= a < b < |u|
      ensures Before(u[a].path, u[b].path)
    {
      BeforeUnder(i, fs[a].path, fs[b].path);
    }
  }

  lemma PreOrderAppend(xs: seq<Found>, ys: seq<Found>)
    requires InPreOrder(xs) && InPreOrder(ys)
    requires forall a, b :: 0 <= a < |xs| && 0 <= b < |ys| ==> Before(xs[a].path, ys[b].path)
    ensures InPreOrder(xs + ys)
  {
    var zs := xs + ys;
    forall a, b | 0 <= a < b < |zs|
      ensures Before(zs[a].path, zs[b].path)
    {
      if b < |xs| {
        assert zs[a] == xs[a] && zs[b] == xs[b];
      } else if a >= |xs| {
        assert zs[a] == ys[a - |xs|] && zs[b] == ys[b - |xs|];
      } else {
        assert zs[a] == xs[a] && zs[b] == ys[b - |xs|];
      }
    }
  }

  lemma {:induction false} FindDescendantsPreOrder(t: Control, k: Kind)
    ensures InPreOrder(FindDescendants(t, k))
    decreases t, 1
  {
    DescendantsFromPreOrder(t, 0, k);
  }

  lemma {:induction false} DescendantsFromPreOrder(t: Control, i: nat, k: Kind)
    requires i <= |t.children|
    ensures InPreOrder(DescendantsFrom(t, i, k))
    decreases t, 0, |t.children| - i
  {
    if i < |t.children| {
      var c := t.children[i];
      var here := if c.widget.kind == k then [Found([i], c.widget)] else [];
      var below := FindDescendants(c, k);
      var under := Under(i, below);
      var rest := DescendantsFrom(t, i + 1, k);
      FindDescendantsPreOrder(c, k);
      UnderPreOrder(i, below);
      DescendantsFromPreOrder(t, i + 1, k);
      forall a, b | 0 <= a < |here| && 0 <= b < |under|
        ensures Before(here[a].path, under[b].path)
      {
        var q := below[b].path;
        assert under[b].path == [i] + q && |q| > 0;
        assert ([i] + q)[1..] == q;
      }
      PreOrderAppend(here, under);
      var front := here + under;
      forall a, b | 0 <= a < |front| && 0 <= b < |rest|
        ensures Before(front[a].path, rest[b].path)
      {
        assert front[a].path[0] == i;
      }
      PreOrderAppend(front, rest);
      assert DescendantsFrom(t, i, k) == front + rest;
    }
  }

  lemma {:induction false} FindDescendantsComplete(t: Control, k: Kind, p: Path)
    requires |p| > 0 && WidgetAt(t, p).Some? && WidgetAt(t, p).value.kind == k
    ensures exists j :: 0 <= j < |FindDescendants(t, k)| && FindDescendants(t, k)[j].path == p
    decreases t, 1
  {
    DescendantsFromComplete(t, 0, k, p);
    var j :| 0 <= j < |DescendantsFrom(t, 0, k)| && DescendantsFrom(t, 0, k)[j].path == p;
    assert FindDescendants(t, k)[j].path == p;
  }

  /** The entry for child `i` itself, when it has class `k`. */
  function Here(t: Control, i: nat, k: Kind): seq<Found>
    requires i < |t.children|
  {
    var c := t.children[i];
    if c.widget.kind == k then [Found([i], c.widget)] else []
  }

  lemma DescendantsFromUnfold(t: Control, i: nat, k: Kind)
    requires i < |t.children|
    ensures DescendantsFrom(t, i, k)
            == Here(t, i, k) + Under(i, FindDescendants(t.children[i], k)) + DescendantsFrom(t, i + 1, k)
  {
  }

  lemma {:induction false} DescendantsFromComplete(t: Control, i: nat, k: Kind, p: Path)
    requires |p| > 0 && WidgetAt(t, p).Some? && WidgetAt(t, p).value.kind == k
    requires i <= p[0]
    ensures p[0] < |t.children|
    ensures exists j :: 0 <= j < |DescendantsFrom(t, i, k)| && DescendantsFrom(t, i, k)[j].path == p
    decreases t, 0, |t.children| - i
  {
    assert p[0] < |t.children|;
    var c := t.children[i];
    var here := Here(t, i, k);
    var below := FindDescendants(c, k);
    var under := Under(i, below);
    var rest := DescendantsFrom(t, i + 1, k);
    DescendantsFromUnfold(t, i, k);
    if p[0] == i && |p| == 1 {
      SelfFound(t, i, k, p);
    } else if p[0] == i {
      assert WidgetAt(t, p) == WidgetAt(c, p[1..]);
      FindDescendantsComplete(c, k, p[1..]);
      var j0 :| 0 <= j0 < |below| && below[j0].path == p[1..];
      assert under[j0].path == [i] + p[1..] == p;
      InMiddle(here, under, rest, j0);
    } else {
      DescendantsFromComplete(t, i + 1, k, p);
      var j0 :| 0 <= j0 < |rest| && rest[j0].path == p;
      InLast(here, under, rest, j0);
    }
  }

  lemma SelfFound(t: Control, i: nat, k: Kind, p: Path)
    requires i < |t.children| && p == [i]
    requires WidgetAt(t, p).Some? && WidgetAt(t, p).value.kind == k
    ensures exists j :: 0 <= j < |DescendantsFrom(t, i, k)| && DescendantsFrom(t, i, k)[j].path == p
  {
    assert WidgetAt(t, p) == WidgetAt(t.children[i], []);
    DescendantsFromUnfold(t, i, k);
    assert DescendantsFrom(t, i, k)[0] == Here(t, i, k)[0];
  }

  lemma InMiddle(xs: seq<Found>, ys: seq<Found>, zs: seq<Found>, j: nat)
    requires j < |ys|
    ensures exists m :: 0 <= m < |xs + ys + zs| && (xs + ys + zs)[m].path == ys[j].path
  {
    assert (xs + ys + zs)[|xs| + j] == ys[j];
  }

  lemma InLast(xs: seq<Found>, ys: seq<Found>, zs: seq<Found>, j: nat)
    requires j < |zs|
    ensures exists m :: 0 <= m < |xs + ys + zs| && (xs + ys + zs)[m].path == zs[j].path
  {
    assert (xs + ys + zs)[|xs| + |ys| + j] == zs[j];
  }

  /** The search finds exactly the proper descendants of class `k`, each
      once, in pre-order. */
  lemma FindDescendantsSpec(t: Control, k: Kind)
    ensures var r := FindDescendants(t, k);
      forall p :: (exists j :: 0 <= j < |r| && r[j].path == p)
             <==> (|p| > 0 && WidgetAt(t, p).Some? && WidgetAt(t, p).value.kind == k)
    ensures var r := FindDescendants(t, k);
      forall a, b :: 0 <= a < b < |r| ==> r[a].path != r[b].path
    ensures InPreOrder(FindDescendants(t, k))
  {
    var r := FindDescendants(t, k);
    forall p | |p| > 0 && WidgetAt(t, p).Some? && WidgetAt(t, p).value.kind == k
      ensures exists j :: 0 <= j < |r| && r[j].path == p
    {
      FindDescendantsComplete(t, k, p);
    }
    FindDescendantsPreOrder(t, k);
    forall a, b | 0 <= a < b < |r|
      ensures r[a].path != r[b].path
    {
      BeforeIrreflexive(r[a].path);
    }
  }
}
