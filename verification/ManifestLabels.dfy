/** Labelling the resources of a Kubernetes manifest (api/kubernetes/yaml.go). */
module ManifestLabels {
  import opened Wrappers

  type Labels = map<string, string>

  /** A document in memory. Decoding makes the first four: a string, a number, boolean or null, a list,
      and a map of anything. `Strings` is a map of strings, which only the labelling itself makes, and
      which no type assertion takes for a map of anything. */
  datatype Node =
    | Str(text: string)
    | Other(value: int)
    | List(items: seq<Node>)
    | Map(fields: map<string, Node>)
    | Strings(labels: Labels)

  /** How `%v` prints a value; a string is printed as it is. */
  ghost predicate PrintsStrings(show: Node -> string) {
    forall s :: show(Str(s)) == s
  }

  /** Equal to "list" up to case; the long s folds to s. */
  predicate IsList(kind: string) {
    |kind| == 4 && kind[0] in "lL" && kind[1] in "iI" && kind[2] in ['s', 'S', '\U{17F}'] && kind[3] in "tT"
  }

  /** A map with a kind that is not a list. */
  predicate IsResource(fields: map<string, Node>) {
    "kind" in fields && !(fields["kind"].Str? && IsList(fields["kind"].text))
  }

  /** The type assertions of addLabels. */
  predicate WellTypedResource(m: map<string, Node>)
    requires IsResource(m)
  {
    m["kind"].Str? && ("metadata" in m ==> WellTypedMetadata(m["metadata"]))
  }

  predicate WellTypedMetadata(metadata: Node) {
    metadata.Map? && ("labels" in metadata.fields ==> metadata.fields["labels"].Map?)
  }

  /** No assertion on the way panics. */
  predicate WellTyped(t: Node)
    decreases t, 0
  {
    match t
    case Map(m) => if IsResource(m) then WellTypedResource(m) else forall k :: k in m ==> WellTypedField(m[k])
    case _ => true
  }

  predicate WellTypedField(v: Node)
    decreases v, 1
  {
    match v
    case Map(_) => WellTyped(v)
    case List(items) => forall i :: 0 <= i < |items| ==> WellTyped(items[i])
    case _ => true
  }

  // ----- what labelling computes

  function Metadata(m: map<string, Node>): map<string, Node> {
    if "metadata" in m && m["metadata"].Map? then m["metadata"].fields else map[]
  }

  /** The labels a resource has, printed. */
  function OwnLabels(m: map<string, Node>, show: Node -> string): Labels {
    var metadata := Metadata(m);
    if "labels" in metadata && metadata["labels"].Map?
    then map k | k in metadata["labels"].fields :: show(metadata["labels"].fields[k])
    else map[]
  }

  /** The resource with the app's labels over its own. */
  function Labelled(m: map<string, Node>, app: Labels, show: Node -> string): map<string, Node> {
    m["metadata" := Map(Metadata(m)["labels" := Strings(OwnLabels(m, show) + app)])]
  }

  function Label(t: Node, app: Labels, show: Node -> string): Node
    decreases t, 0
  {
    match t
    case Map(m) =>
      if IsResource(m) then Map(Labelled(m, app, show))
      else Map(map k | k in m :: LabelField(m[k], app, show))
    case _ => t
  }

  function LabelField(v: Node, app: Labels, show: Node -> string): Node
    decreases v, 1
  {
    match v
    case Map(_) => Label(v, app, show)
    case List(items) => List(seq(|items|, i requires 0 <= i < |items| => Label(items[i], app, show)))
    case _ => v
  }

  // ----- the code

  /** addResourceLabels; nothing when it panics. The fields of a map are visited in any order. */
  method AddResourceLabels(t: Node, app: Labels, show: Node -> string) returns (r: Option<Node>)
    ensures r == if WellTyped(t) then Some(Label(t, app, show)) else None
    decreases t, 1
  {
    if !t.Map? {
      return Some(t);
    }
    var m := t.fields;
    if "kind" in m {
      if !m["kind"].Str? {
        return None;
      }
      if !IsList(m["kind"].text) {
        r := AddLabels(m, app, show);
        return;
      }
    }
    r := AddAllFields(t, app, show);
  }

  predicate FieldDone(v: Node, labelled: Node, app: Labels, show: Node -> string) {
    WellTypedField(v) && labelled == LabelField(v, app, show)
  }

  /** The loop over a map's fields, in any order. */
  method AddAllFields(t: Node, app: Labels, show: Node -> string) returns (r: Option<Node>)
    requires t.Map? && !IsResource(t.fields)
    ensures r == if WellTyped(t) then Some(Label(t, app, show)) else None
    decreases t, 0
  {
    var m := t.fields;
    var pending := m.Keys;
    while pending != {}
      invariant pending <= t.fields.Keys == m.Keys
      invariant forall k :: k in t.fields && k !in pending ==> FieldDone(t.fields[k], m[k], app, show)
      decreases |pending|
    {
      var k :| k in pending;
      var field := AddFieldLabels(t.fields[k], app, show);
      if field.None? {
        return None;
      }
      m := m[k := field.value];
      pending := pending - {k};
    }
    assert m == map k | k in t.fields :: LabelField(t.fields[k], app, show);
    r := Some(Map(m));
  }

  /** The body of the loop over a map's fields. */
  method AddFieldLabels(v: Node, app: Labels, show: Node -> string) returns (r: Option<Node>)
    ensures r == if WellTypedField(v) then Some(LabelField(v, app, show)) else None
    decreases v, 2
  {
    match v
    case Map(_) => r := AddResourceLabels(v, app, show);
    case List(items) =>
      var done := items;
      for i := 0 to |items|
        invariant |done| == |items|
        invariant forall j :: 0 <= j < i ==> WellTyped(items[j]) && done[j] == Label(items[j], app, show)
        invariant forall j :: i <= j < |items| ==> done[j] == items[j]
      {
        var item := AddResourceLabels(items[i], app, show);
        if item.None? {
          return None;
        }
        done := done[i := item.value];
      }
      assert done == seq(|items|, i requires 0 <= i < |items| => Label(items[i], app, show));
      r := Some(List(done));
    case _ => r := Some(v);
  }

  method AddLabels(m: map<string, Node>, app: Labels, show: Node -> string) returns (r: Option<Node>)
    requires IsResource(m)
    ensures r == if "metadata" !in m || WellTypedMetadata(m["metadata"]) then Some(Map(Labelled(m, app, show))) else None
  {
    var metadata: map<string, Node> := map[];
    if "metadata" in m {
      if !m["metadata"].Map? {
        return None;
      }
      metadata := m["metadata"].fields;
    }
    var labels: Labels := map[];
    if "labels" in metadata {
      if !metadata["labels"].Map? {
        return None;
      }
      var own := metadata["labels"].fields;
      var pending := own.Keys;
      while pending != {}
        invariant pending <= own.Keys
        invariant labels == map k | k in own && k !in pending :: show(own[k])
        decreases |pending|
      {
        var k :| k in pending;
        labels := labels[k := show(own[k])];
        pending := pending - {k};
      }
    }
    assert labels == OwnLabels(m, show);
    labels := labels + app;
    r := Some(Map(m["metadata" := Map(metadata["labels" := Strings(labels)])]));
  }

  // ----- paths

  datatype Hop = Key(k: string) | Item(i: nat)

  /** The node a path leads to. */
  function At(t: Node, path: seq<Hop>): Option<Node>
    decreases |path|
  {
    if path == [] then Some(t)
    else match (path[0], t)
         case (Key(k), Map(m)) => if k in m then At(m[k], path[1..]) else None
         case (Item(i), List(items)) => if i < |items| then At(items[i], path[1..]) else None
         case _ => None
  }

  /** The path leads to a resource through maps that are not resources and their direct list
      elements. */
  predicate ResourceAt(t: Node, path: seq<Hop>)
    decreases |path|
  {
    && t.Map?
    && if IsResource(t.fields) then path == []
       else
         && path != [] && path[0].Key? && path[0].k in t.fields
         && match t.fields[path[0].k]
            case Map(_) => ResourceAt(t.fields[path[0].k], path[1..])
            case List(items) => |path| > 1 && path[1].Item? && path[1].i < |items| && ResourceAt(items[path[1].i], path[2..])
            case _ => false
  }

  /** Each resource's labels, below its path. */
  const LABELS: seq<Hop> := [Key("metadata"), Key("labels")]

  /** The path leads neither into some resource's labels nor to a map that may gain a field on the
      way there. */
  ghost predicate Apart(t: Node, path: seq<Hop>) {
    forall p :: ResourceAt(t, p) ==> !(p + LABELS <= path) && path != p && path != p + [Key("metadata")]
  }

  /** The two nodes look alike: the same scalar, lists of one length, or maps with the same fields. */
  predicate Alike(a: Option<Node>, b: Option<Node>) {
    match (a, b)
    case (Some(Map(m)), Some(Map(n))) => m.Keys == n.Keys
    case (Some(List(x)), Some(List(y))) => |x| == |y|
    case _ => a == b
  }

  // ----- main results

  lemma {:induction false} LabelledInPlace(t: Node, app: Labels, show: Node -> string, path: seq<Hop>)
    requires ResourceAt(t, path)
    ensures At(t, path).Some? && At(t, path).value.Map?
    ensures At(Label(t, app, show), path) == Some(Map(Labelled(At(t, path).value.fields, app, show)))
    decreases |path|
  {
    if !IsResource(t.fields) {
      var v := t.fields[path[0].k];
      match v
      case Map(_) => LabelledInPlace(v, app, show, path[1..]);
      case List(items) =>
        assert path[1..][0] == path[1] && path[1..][1..] == path[2..];
        LabelledInPlace(items[path[1].i], app, show, path[2..]);
    }
  }

  /** Every resource reached is labelled: with all the app's labels, its own others printed, its
      other metadata and its other fields as they were. */
  lemma ResourcesAreLabelled(t: Node, app: Labels, show: Node -> string, path: seq<Hop>)
    requires ResourceAt(t, path)
    ensures At(t, path).Some? && At(t, path).value.Map?
    ensures At(Label(t, app, show), path) == Some(Map(Labelled(At(t, path).value.fields, app, show)))
    ensures At(Label(t, app, show), path + LABELS) == Some(Strings(OwnLabels(At(t, path).value.fields, show) + app))
  {
    LabelledInPlace(t, app, show, path);
    AtBelow(Label(t, app, show), path, LABELS);
    LabelsPath(At(t, path).value.fields, app, show);
  }

  lemma LabelsPath(m: map<string, Node>, app: Labels, show: Node -> string)
    ensures At(Map(Labelled(m, app, show)), LABELS) == Some(Strings(OwnLabels(m, show) + app))
  {
    var m' := Labelled(m, app, show);
    assert LABELS == [Key("metadata")] + [Key("labels")] && [Key("labels")] == [Key("labels")] + [];
    OneHop(Map(m'), "metadata", [Key("labels")]);
    OneHop(m'["metadata"], "labels", []);
  }

  /** A resource has the app's labels and those it had, and a label of its own keeps its value,
      printed, unless the app has one of that name. */
  lemma LabelsOfResource(t: Node, app: Labels, show: Node -> string, path: seq<Hop>, l: string)
    requires ResourceAt(t, path)
    ensures At(Label(t, app, show), path + LABELS).Some? && At(Label(t, app, show), path + LABELS).value.Strings?
    ensures var was, now := At(t, path + LABELS + [Key(l)]), At(Label(t, app, show), path + LABELS).value.labels;
            && (l in now <==> l in app || was.Some?)
            && (l in app ==> now[l] == app[l])
            && (l !in app && was.Some? ==> now[l] == show(was.value))
  {
    ResourcesAreLabelled(t, app, show, path);
    AtBelow(t, path, LABELS + [Key(l)]);
    assert path + LABELS + [Key(l)] == path + (LABELS + [Key(l)]);
    OwnLabelAt(At(t, path).value.fields, show, l);
  }

  /** A path is followed in two parts. */
  lemma {:induction false} AtBelow(t: Node, path: seq<Hop>, rest: seq<Hop>)
    ensures At(t, path + rest) == match At(t, path) case Some(n) => At(n, rest) case None => None
    decreases |path|
  {
    if path == [] {
      assert path + rest == rest;
    } else {
      assert (path + rest)[1..] == path[1..] + rest;
      match (path[0], t)
      case (Key(k), Map(m)) => if k in m { AtBelow(m[k], path[1..], rest); }
      case (Item(i), List(items)) => if i < |items| { AtBelow(items[i], path[1..], rest); }
      case _ =>
    }
  }

  lemma OneHop(t: Node, k: string, rest: seq<Hop>)
    ensures At(t, [Key(k)] + rest) == if t.Map? && k in t.fields then At(t.fields[k], rest) else None
  {
    assert ([Key(k)] + rest)[1..] == rest;
  }

  /** A resource's own labels are what is found below its metadata. */
  lemma OwnLabelAt(m: map<string, Node>, show: Node -> string, l: string)
    ensures l in OwnLabels(m, show) <==> At(Map(m), LABELS + [Key(l)]).Some?
    ensures l in OwnLabels(m, show) ==> OwnLabels(m, show)[l] == show(At(Map(m), LABELS + [Key(l)]).value)
  {
    var two, one := [Key("labels"), Key(l)], [Key(l)];
    assert LABELS + [Key(l)] == [Key("metadata")] + two && two == [Key("labels")] + one && one == [Key(l)] + [];
    OneHop(Map(m), "metadata", two);
    if "metadata" in m {
      OneHop(m["metadata"], "labels", one);
      if m["metadata"].Map? && "labels" in m["metadata"].fields {
        OneHop(m["metadata"].fields["labels"], l, []);
      }
    }
  }

  /** Apart from the labels of resources, and the metadata and labels fields that may be new, every
      path leads to what it led to before. */
  lemma {:induction false} NothingElseChanges(t: Node, app: Labels, show: Node -> string, path: seq<Hop>)
    requires WellTyped(t) && Apart(t, path)
    ensures Alike(At(t, path), At(Label(t, app, show), path))
    decreases |path|
  {
    if t.Map? && IsResource(t.fields) {
      ResourceUnchanged(t.fields, app, show, path);
    } else if t.Map? && path != [] && path[0].Key? && path[0].k in t.fields {
      FieldUnchanged(t, app, show, path);
    }
  }

  lemma ResourceUnchanged(m: map<string, Node>, app: Labels, show: Node -> string, path: seq<Hop>)
    requires IsResource(m) && WellTypedResource(m) && Apart(Map(m), path)
    ensures At(Map(m), path) == At(Map(Labelled(m, app, show)), path)
  {
    assert ResourceAt(Map(m), []);
    assert [] + LABELS == LABELS && [] + [Key("metadata")] == [Key("metadata")];
    if path[0] == Key("metadata") {
      assert path == [path[0]] + path[1..];
      assert path[1..] != [];
    }
  }

  lemma FieldUnchanged(t: Node, app: Labels, show: Node -> string, path: seq<Hop>)
    requires WellTyped(t) && Apart(t, path)
    requires t.Map? && !IsResource(t.fields) && path != [] && path[0].Key? && path[0].k in t.fields
    ensures Alike(At(t, path), At(Label(t, app, show), path))
    decreases |path|, 0
  {
    var v := t.fields[path[0].k];
    var rest := path[1..];
    assert WellTypedField(v);
    match v
    case Map(_) =>
      ApartBelow(t, path);
      NothingElseChanges(v, app, show, rest);
    case List(items) =>
      if rest != [] && rest[0].Item? && rest[0].i < |items| {
        ApartInItem(t, path);
        NothingElseChanges(items[rest[0].i], app, show, rest[1..]);
      }
    case _ =>
  }

  lemma ApartBelow(t: Node, path: seq<Hop>)
    requires t.Map? && !IsResource(t.fields) && path != [] && path[0].Key? && path[0].k in t.fields
    requires t.fields[path[0].k].Map? && Apart(t, path)
    ensures Apart(t.fields[path[0].k], path[1..])
  {
    var v, rest := t.fields[path[0].k], path[1..];
    forall p | ResourceAt(v, p) ensures !(p + LABELS <= rest) && rest != p && rest != p + [Key("metadata")] {
      Below(t, [path[0]], p, path, rest);
    }
  }

  lemma ApartInItem(t: Node, path: seq<Hop>)
    requires t.Map? && !IsResource(t.fields) && |path| > 1 && path[0].Key? && path[0].k in t.fields
    requires t.fields[path[0].k].List? && path[1].Item? && path[1].i < |t.fields[path[0].k].items| && Apart(t, path)
    ensures Apart(t.fields[path[0].k].items[path[1].i], path[1..][1..])
  {
    var item, deeper := t.fields[path[0].k].items[path[1].i], path[1..][1..];
    assert deeper == path[2..];
    forall p | ResourceAt(item, p) ensures !(p + LABELS <= deeper) && deeper != p && deeper != p + [Key("metadata")] {
      BelowItem(t, path[0], path[1], p, path, deeper);
    }
  }

  /** A resource below a field is a resource of the whole. */
  lemma Below(t: Node, hop: seq<Hop>, p: seq<Hop>, path: seq<Hop>, rest: seq<Hop>)
    requires t.Map? && !IsResource(t.fields) && |hop| == 1 && hop[0].Key? && hop[0].k in t.fields
    requires t.fields[hop[0].k].Map? && ResourceAt(t.fields[hop[0].k], p)
    requires path == hop + rest && Apart(t, path)
    ensures !(p + LABELS <= rest) && rest != p && rest != p + [Key("metadata")]
  {
    var q := hop + p;
    assert q[1..] == p;
    assert ResourceAt(t, q);
    assert hop + (p + LABELS) == q + LABELS && hop + (p + [Key("metadata")]) == q + [Key("metadata")];
  }

  lemma BelowItem(t: Node, hop: Hop, item: Hop, p: seq<Hop>, path: seq<Hop>, rest: seq<Hop>)
    requires t.Map? && !IsResource(t.fields) && hop.Key? && hop.k in t.fields && t.fields[hop.k].List?
    requires item.Item? && item.i < |t.fields[hop.k].items| && ResourceAt(t.fields[hop.k].items[item.i], p)
    requires path == [hop, item] + rest && Apart(t, path)
    ensures !(p + LABELS <= rest) && rest != p && rest != p + [Key("metadata")]
  {
    var q := [hop, item] + p;
    assert q[2..] == p;
    assert ResourceAt(t, q);
    assert [hop, item] + (p + LABELS) == q + LABELS && [hop, item] + (p + [Key("metadata")]) == q + [Key("metadata")];
  }

  // ----- the resources of a document, and those of its fields

  /** The path leads to such a resource. */
  ghost predicate SuchAt(t: Node, path: seq<Hop>, such: map<string, Node> -> bool) {
    ResourceAt(t, path) && At(t, path).Some? && At(t, path).value.Map? && such(At(t, path).value.fields)
  }

  ghost predicate HasSuch(t: Node, such: map<string, Node> -> bool) {
    exists path :: SuchAt(t, path, such)
  }

  ghost predicate FieldHasSuch(v: Node, such: map<string, Node> -> bool) {
    match v
    case Map(_) => HasSuch(v, such)
    case List(items) => exists i :: 0 <= i < |items| && HasSuch(items[i], such)
    case _ => false
  }

  /** The resources of a map that is none itself are those of its fields. */
  lemma ResourcesOfFields(t: Node, such: map<string, Node> -> bool)
    requires t.Map? && !IsResource(t.fields)
    ensures HasSuch(t, such) <==> exists k :: k in t.fields && FieldHasSuch(t.fields[k], such)
  {
    if path: seq<Hop> :| SuchAt(t, path, such) {
      var v := t.fields[path[0].k];
      if v.List? {
        assert path[1..][0] == path[1] && path[1..][1..] == path[2..];
        assert At(t, path) == At(v, path[1..]) == At(v.items[path[1].i], path[2..]);
        assert SuchAt(v.items[path[1].i], path[2..], such);
        assert HasSuch(v.items[path[1].i], such);
      } else {
        assert SuchAt(v, path[1..], such);
      }
      assert FieldHasSuch(v, such);
    }
    forall k | k in t.fields && FieldHasSuch(t.fields[k], such) ensures HasSuch(t, such) {
      FieldOfResource(t, k, such);
    }
  }

  lemma FieldOfResource(t: Node, k: string, such: map<string, Node> -> bool)
    requires t.Map? && !IsResource(t.fields) && k in t.fields && FieldHasSuch(t.fields[k], such)
    ensures HasSuch(t, such)
  {
    match t.fields[k]
    case Map(_) =>
      var path :| SuchAt(t.fields[k], path, such);
      assert ([Key(k)] + path)[1..] == path;
      assert SuchAt(t, [Key(k)] + path, such);
    case List(items) =>
      var i: nat :| i < |items| && HasSuch(items[i], such);
      var path :| SuchAt(items[i], path, such);
      var whole := [Key(k), Item(i)] + path;
      assert whole[2..] == path && whole[1..][1..] == path;
      assert SuchAt(t, whole, such);
  }

  // ----- when labelling panics

  /** A resource whose kind is no string, whose metadata is no map, or whose labels are none. */
  predicate IllTyped(m: map<string, Node>) {
    || ("kind" in m && !m["kind"].Str?)
    || ("metadata" in m && !m["metadata"].Map?)
    || ("metadata" in m && m["metadata"].Map? && "labels" in m["metadata"].fields && !m["metadata"].fields["labels"].Map?)
  }

  /** Labelling panics iff it comes to such a resource, wherever in the document that is. */
  lemma {:induction false} PanicsIffIllTyped(t: Node)
    ensures !WellTyped(t) <==> exists path :: SuchAt(t, path, IllTyped)
    decreases t, 0
  {
    if t.Map? {
      var m := t.fields;
      if IsResource(m) {
        assert SuchAt(t, [], IllTyped) <==> IllTyped(m);
        assert forall path :: ResourceAt(t, path) ==> path == [];
      } else {
        ResourcesOfFields(t, IllTyped);
        forall k | k in m ensures !WellTypedField(m[k]) <==> FieldHasSuch(m[k], IllTyped) {
          FieldPanics(m[k]);
        }
        assert !WellTyped(t) <==> HasSuch(t, IllTyped);
      }
    }
  }

  lemma FieldPanics(v: Node)
    ensures !WellTypedField(v) <==> FieldHasSuch(v, IllTyped)
    decreases v, 1
  {
    match v
    case Map(_) =>
      PanicsIffIllTyped(v);
    case List(items) =>
      forall i | 0 <= i < |items| ensures !WellTyped(items[i]) <==> HasSuch(items[i], IllTyped) {
        PanicsIffIllTyped(items[i]);
      }
    case _ =>
  }

  // ----- which maps are resources

  /** A letter without its case; the long s folds to s, and no other letter outside ASCII to one of "list". */
  function Folded(c: char): char {
    if 'A' <= c <= 'Z' then (c as int + 32) as char
    else if c as int == 0x17F then 's'
    else c
  }

  function FoldedText(s: string): string { seq(|s|, i requires 0 <= i < |s| => Folded(s[i])) }

  /** A map is labelled, in its metadata and nowhere else, iff it has a kind that is not "list" in any case;
      in every other map the fields are gone through instead, and only maps and lists are touched. */
  lemma KindDecides(m: map<string, Node>, app: Labels, show: Node -> string)
    requires "kind" in m ==> m["kind"].Str?
    ensures var m' := Label(Map(m), app, show).fields;
            if "kind" in m && FoldedText(m["kind"].text) != "list" then
              && m'.Keys == m.Keys + {"metadata"} && (forall k :: k in m && k != "metadata" ==> m'[k] == m[k])
              && At(Map(m'), LABELS).Some? && At(Map(m'), LABELS).value.Strings?
              && (forall l :: l in app ==> l in At(Map(m'), LABELS).value.labels && At(Map(m'), LABELS).value.labels[l] == app[l])
            else
              && m'.Keys == m.Keys && (forall k :: k in m && !m[k].Map? && !m[k].List? ==> m'[k] == m[k])
              && (forall k :: k in m && m[k].Map? ==> m'[k] == Label(m[k], app, show))
  {
    if "kind" in m {
      ListInAnyCase(m["kind"].text);
      if !IsList(m["kind"].text) {
        LabelsPath(m, app, show);
      }
    }
  }

  lemma ListInAnyCase(kind: string)
    ensures IsList(kind) <==> FoldedText(kind) == "list"
  {
    if |kind| == 4 {
      assert FoldedText(kind) == [Folded(kind[0]), Folded(kind[1]), Folded(kind[2]), Folded(kind[3])];
      assert "list" == ['l', 'i', 's', 't'];
      assert forall c: char :: (c in "lL" <==> Folded(c) == 'l') && (c in "iI" <==> Folded(c) == 'i') && (c in "tT" <==> Folded(c) == 't');
    }
  }

  /** Of a list, the maps in it are labelled, each in its place; a list in a list is not looked into, and
      neither is a list that is a whole document. */
  lemma ListsAreLabelledOneDeep(items: seq<Node>, app: Labels, show: Node -> string)
    ensures Label(List(items), app, show) == List(items)
    ensures var done := LabelField(List(items), app, show);
            && done.List? && |done.items| == |items|
            && (forall i :: 0 <= i < |items| && !items[i].Map? ==> done.items[i] == items[i])
            && (forall i :: 0 <= i < |items| && items[i].Map? && "kind" in items[i].fields && items[i].fields["kind"].Str?
                            && FoldedText(items[i].fields["kind"].text) != "list"
                  ==> At(done.items[i], LABELS).Some? && At(done.items[i], LABELS).value.Strings?
                      && forall l :: l in app ==> l in At(done.items[i], LABELS).value.labels)
  {
    var done := LabelField(List(items), app, show);
    forall i | 0 <= i < |items| && items[i].Map? && "kind" in items[i].fields && items[i].fields["kind"].Str?
               && FoldedText(items[i].fields["kind"].text) != "list"
      ensures At(done.items[i], LABELS).Some? && At(done.items[i], LABELS).value.Strings?
      ensures forall l :: l in app ==> l in At(done.items[i], LABELS).value.labels
    {
      KindDecides(items[i].fields, app, show);
    }
  }

  // ----- labelling twice

  /** The document in memory after it has been written and read back. */
  function Reread(t: Node): Node {
    match t
    case Map(m) => Map(map k | k in m :: Reread(m[k]))
    case List(items) => List(seq(|items|, i requires 0 <= i < |items| => Reread(items[i])))
    case Strings(labels) => Map(map k | k in labels :: Str(labels[k]))
    case _ => t
  }

  ghost predicate HasResource(t: Node) {
    exists path :: ResourceAt(t, path)
  }

  predicate Every(m: map<string, Node>) { true }

  lemma EverySuch(t: Node)
    ensures HasResource(t) <==> HasSuch(t, Every)
  {
    forall path | ResourceAt(t, path) ensures SuchAt(t, path, Every) {
      LabelledInPlace(t, map[], _ => [], path);
    }
  }

  /** A document can be labelled twice in memory iff it holds no resource: where it does, the labels
      left by the first time are no longer a map of anything, and the second time panics. */
  lemma {:induction false} TwiceIffNoResource(t: Node, app: Labels, show: Node -> string)
    requires WellTyped(t)
    ensures WellTyped(Label(t, app, show)) <==> !HasResource(t)
    decreases t, 0
  {
    EverySuch(t);
    if t.Map? {
      var m, m' := t.fields, Label(t, app, show).fields;
      if IsResource(m) {
        assert ResourceAt(t, []);
        LabelledIsIllTyped(m, app, show);
        assert Label(t, app, show) == Map(Labelled(m, app, show));
      } else {
        KindStays(m, app, show);
        ResourcesOfFields(t, Every);
        forall k | k in m ensures WellTypedField(m'[k]) <==> !FieldHasSuch(m[k], Every) {
          FieldTwice(m[k], app, show);
        }
      }
    }
  }

  lemma LabelledIsIllTyped(m: map<string, Node>, app: Labels, show: Node -> string)
    requires IsResource(m)
    ensures !WellTyped(Map(Labelled(m, app, show)))
  {
    var m' := Labelled(m, app, show);
    assert m'["kind"] == m["kind"];
    assert m'["metadata"].fields["labels"].Strings?;
    assert !WellTypedResource(m');
  }

  lemma KindStays(m: map<string, Node>, app: Labels, show: Node -> string)
    requires !IsResource(m)
    ensures !IsResource(Label(Map(m), app, show).fields)
  {
    assert "kind" in m ==> LabelField(m["kind"], app, show) == m["kind"];
  }

  lemma FieldTwice(v: Node, app: Labels, show: Node -> string)
    requires WellTypedField(v)
    ensures WellTypedField(LabelField(v, app, show)) <==> !FieldHasSuch(v, Every)
    decreases v, 1
  {
    match v
    case Map(_) =>
      EverySuch(v);
      TwiceIffNoResource(v, app, show);
    case List(items) =>
      var items' := LabelField(v, app, show).items;
      forall i | 0 <= i < |items| ensures WellTyped(items'[i]) <==> !HasSuch(items[i], Every) {
        EverySuch(items[i]);
        TwiceIffNoResource(items[i], app, show);
      }
    case _ =>
  }

  /** The smallest document that cannot be labelled twice in memory. */
  lemma PodCannotBeLabelledTwice(app: Labels, show: Node -> string)
    ensures var pod := Map(map["kind" := Str("Pod")]); WellTyped(pod) && !WellTyped(Label(pod, app, show))
  {
    var pod := Map(map["kind" := Str("Pod")]);
    assert IsResource(pod.fields);
    assert ResourceAt(pod, []);
    TwiceIffNoResource(pod, app, show);
  }

  /** What decoding makes: reading it back changes nothing. */
  predicate Decoded(t: Node) { Reread(t) == t }

  lemma FieldIsDecoded(m: map<string, Node>, k: string)
    requires Decoded(Map(m)) && k in m
    ensures Decoded(m[k])
  {
    assert Reread(Map(m)).fields[k] == Reread(m[k]);
  }

  lemma ItemIsDecoded(items: seq<Node>, i: nat)
    requires Decoded(List(items)) && i < |items|
    ensures Decoded(items[i])
  {
    assert Reread(List(items)).items[i] == Reread(items[i]);
  }

  /** Once it has been written and read back, a labelled document can be labelled again, and is then
      written as it was. */
  lemma {:induction false} LabellingIsIdempotent(t: Node, app: Labels, show: Node -> string)
    requires Decoded(t) && WellTyped(t) && PrintsStrings(show)
    ensures var again := Reread(Label(t, app, show)); WellTyped(again) && Reread(Label(again, app, show)) == again
    decreases t, 0
  {
    if t.Map? {
      var m := t.fields;
      if IsResource(m) {
        ResourceIsStable(m, app, show);
      } else {
        var m' := Reread(Label(t, app, show)).fields;
        forall k | k in m ensures WellTypedField(m'[k]) && Reread(LabelField(m'[k], app, show)) == m'[k] {
          FieldIsDecoded(m, k);
          FieldIsStable(m[k], app, show);
        }
        if "kind" in m {
          assert m'["kind"] == Reread(LabelField(m["kind"], app, show));
          assert LabelField(m["kind"], app, show) == m["kind"];
        }
        assert !IsResource(m');
        assert Reread(Label(Map(m'), app, show)).fields == m';
      }
    }
  }

  lemma FieldIsStable(v: Node, app: Labels, show: Node -> string)
    requires Decoded(v) && WellTypedField(v) && PrintsStrings(show)
    ensures var again := Reread(LabelField(v, app, show)); WellTypedField(again) && Reread(LabelField(again, app, show)) == again
    decreases v, 1
  {
    match v
    case Map(_) =>
      LabellingIsIdempotent(v, app, show);
    case List(items) =>
      var items' := Reread(LabelField(v, app, show)).items;
      forall i | 0 <= i < |items| ensures WellTyped(items'[i]) && Reread(Label(items'[i], app, show)) == items'[i] {
        ItemIsDecoded(items, i);
        LabellingIsIdempotent(items[i], app, show);
      }
      assert Reread(LabelField(List(items'), app, show)).items == items';
    case _ =>
  }

  lemma ResourceIsStable(m: map<string, Node>, app: Labels, show: Node -> string)
    requires Decoded(Map(m)) && IsResource(m) && WellTypedResource(m) && PrintsStrings(show)
    ensures var again := Reread(Map(Labelled(m, app, show)));
            WellTyped(again) && Reread(Label(again, app, show)) == again
  {
    var labels := OwnLabels(m, show) + app;
    var metadata := Reread(Map(Metadata(m)["labels" := Strings(labels)])).fields;
    var m' := m["metadata" := Map(metadata)];
    LabelledReread(m, app, show);
    LabelledAgain(m, metadata, labels, app, show);
    assert m'["kind"] == m["kind"];
    FieldsAreDecoded(m);
    MetadataReread(m, labels);
    RereadUpdate(m, "metadata", Map(metadata["labels" := Strings(labels)]));
  }

  /** Labelling a resource whose labels have been read back gives it those labels again. */
  lemma LabelledAgain(m: map<string, Node>, metadata: map<string, Node>, labels: Labels, app: Labels, show: Node -> string)
    requires PrintsStrings(show) && "labels" in metadata && metadata["labels"] == Reread(Strings(labels))
    requires labels + app == labels
    ensures Labelled(m["metadata" := Map(metadata)], app, show) == m["metadata" := Map(metadata["labels" := Strings(labels)])]
  {
    var m' := m["metadata" := Map(metadata)];
    OwnLabelsReread(m', labels, show);
    assert Labelled(m', app, show) == m'["metadata" := Map(metadata["labels" := Strings(labels)])];
  }

  /** Reading back a document with one new field. */
  lemma RereadUpdate(m: map<string, Node>, k: string, v: Node)
    requires forall j :: j in m && j != k ==> Decoded(m[j])
    ensures Reread(Map(m[k := v])) == Map(m[k := Reread(v)])
  {
    assert Reread(Map(m[k := v])).fields == m[k := Reread(v)];
  }

  lemma FieldsAreDecoded(m: map<string, Node>)
    requires Decoded(Map(m))
    ensures forall k :: k in m ==> Decoded(m[k])
  {
    forall k | k in m ensures Decoded(m[k]) {
      FieldIsDecoded(m, k);
    }
  }

  lemma LabelledReread(m: map<string, Node>, app: Labels, show: Node -> string)
    requires Decoded(Map(m))
    ensures var metadata := Metadata(m)["labels" := Strings(OwnLabels(m, show) + app)];
            Reread(Map(Labelled(m, app, show))) == Map(m["metadata" := Reread(Map(metadata))])
  {
    FieldsAreDecoded(m);
    RereadUpdate(m, "metadata", Map(Metadata(m)["labels" := Strings(OwnLabels(m, show) + app)]));
  }

  /** Labels that have been read back are printed as they were. */
  lemma OwnLabelsReread(m: map<string, Node>, labels: Labels, show: Node -> string)
    requires PrintsStrings(show) && "metadata" in m && m["metadata"].Map?
    requires "labels" in m["metadata"].fields && m["metadata"].fields["labels"] == Reread(Strings(labels))
    ensures OwnLabels(m, show) == labels
  {
  }

  /** Metadata that has been read back is read back the same with its labels replaced. */
  lemma MetadataReread(m: map<string, Node>, labels: Labels)
    requires Decoded(Map(m))
    ensures var metadata := Reread(Map(Metadata(m)["labels" := Strings(labels)])).fields;
            Reread(Map(metadata["labels" := Strings(labels)])) == Map(metadata)
  {
    FieldsAreDecoded(m);
    if "metadata" in m && m["metadata"].Map? {
      FieldsAreDecoded(m["metadata"].fields);
    }
    RereadUpdate(Metadata(m), "labels", Strings(labels));
    var metadata := Reread(Map(Metadata(m)["labels" := Strings(labels)])).fields;
    RereadUpdate(metadata, "labels", Strings(labels));
    assert metadata["labels" := Reread(Strings(labels))] == metadata;
  }
}
