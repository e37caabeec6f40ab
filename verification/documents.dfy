/** The document builder of the import script: every pose record becomes one
    LangChain document whose page content lists five fields of the record as
    `key: value` lines, stripped of surrounding whitespace, and whose
    metadata is the record itself. */
module PoseDocuments {
  import opened PyStr

  /** A pose record as loaded from the dataset: field name to value. A key
      that is absent is where `dict.get` falls back to its default. */
  type Pose = map<string, string>

  /** A LangChain document: its page content and its metadata. */
  datatype Doc = Doc(text: string, meta: Pose)

  /** The five values a pose shows on its page content, one per line, in
      line order. */
  datatype Shown = Shown(name: string, description: string, sanskritName: string,
                         expertiseLevel: string, poseType: string)

  /** Python's `pose.get(key, default)`. */
  function Get(pose: Pose, key: string, default: string): string {
    if key in pose then pose[key] else default
  }

  /** One line of the page content: the key looked up and the value
      `pose.get` falls back to when the key is absent. */
  datatype Field = Field(key: string, default: string)

  /** The builder's five lookups, in line order: "" is the fallback for
      `name`, `description` and `sanskrit_name`, "N/A" for
      `expertise_level` and `pose_type`. */
  const Fields: seq<Field> := [
    Field("name", ""),
    Field("description", ""),
    Field("sanskrit_name", ""),
    Field("expertise_level", "N/A"),
    Field("pose_type", "N/A")
  ]

  /** `pose.get(f.key, f.default)` for each field `f`, in order. */
  function Lookups(pose: Pose, fields: seq<Field>): (vs: seq<string>)
    ensures |vs| == |fields|
  {
    if fields == [] then []
    else [Get(pose, fields[0].key, fields[0].default)] + Lookups(pose, fields[1..])
  }

  /** The five values a pose shows, one per line. */
  function ShownValues(pose: Pose): Shown {
    var vs := Lookups(pose, Fields);
    Shown(vs[0], vs[1], vs[2], vs[3], vs[4])
  }

  /** Each lookup is `dict.get` on its own field: the stored value when
      the key is present, the field's fallback otherwise. */
  lemma {:induction false} LookupsAreGets(pose: Pose, fields: seq<Field>)
    ensures forall i :: 0 <= i < |fields| ==>
      Lookups(pose, fields)[i] == (if fields[i].key in pose then pose[fields[i].key] else fields[i].default)
    decreases |fields|
  {
    if fields != [] {
      LookupsAreGets(pose, fields[1..]);
      var vs := Lookups(pose, fields);
      assert vs[1..] == Lookups(pose, fields[1..]);
      assert forall i :: 1 <= i < |fields| ==> vs[i] == vs[1..][i - 1] && fields[i] == fields[1..][i - 1];
    }
  }

  /** The values a pose shows: the stored value whenever the key is
      present, even an empty one; otherwise "" for `name`, `description`
      and `sanskrit_name` and "N/A" for `expertise_level` and
      `pose_type`. */
  lemma ShownValuesDefaults(pose: Pose)
    ensures ShownValues(pose) == Shown(
      if "name" in pose then pose["name"] else "",
      if "description" in pose then pose["description"] else "",
      if "sanskrit_name" in pose then pose["sanskrit_name"] else "",
      if "expertise_level" in pose then pose["expertise_level"] else "N/A",
      if "pose_type" in pose then pose["pose_type"] else "N/A")
  {
    LookupsAreGets(pose, Fields);
  }

  /** The five formatted pieces of the page content, each ending in a
      newline, concatenated. */
  function Format(v: Shown): string {
    ("name: " + v.name) + "\n"
    + ("description: " + v.description) + "\n"
    + ("sanskrit_name: " + v.sanskritName) + "\n"
    + ("expertise_level: " + v.expertiseLevel) + "\n"
    + ("pose_type: " + v.poseType) + "\n"
  }

  /** The page content of a pose before stripping. */
  function Render(pose: Pose): string {
    Format(ShownValues(pose))
  }

  /** The page content of a pose's document: the rendering, stripped. */
  function Text(pose: Pose): string {
    Strip(Render(pose))
  }

  /** The five `key: value` lines, without newlines, in order: an
      independent statement of the layout, as a list. */
  function Lines(v: Shown): seq<string> {
    ["name: " + v.name, "description: " + v.description, "sanskrit_name: " + v.sanskritName,
     "expertise_level: " + v.expertiseLevel, "pose_type: " + v.poseType]
  }

  /** Everything of the rendering up to the colon of `pose_type:`: the part
      no whitespace strip can reach, since it ends in ':'. */
  function Head(v: Shown): string {
    Join(Lines(v)[..4], '\n') + "\n" + "pose_type:"
  }

  /** The document built from one pose: the stripped rendering as page
      content, the pose itself, unchanged, as metadata. */
  function MakeDoc(pose: Pose): Doc {
    Doc(Text(pose), pose)
  }

  /** The loop of the builder: one `make(x)` per element, appended in
      input order. */
  method Collect<A, B>(xs: seq<A>, make: A -> B) returns (ys: seq<B>)
    ensures |ys| == |xs|
    ensures forall i :: 0 <= i < |xs| ==> ys[i] == make(xs[i])
  {
    ys := [];
    for k := 0 to |xs|
      invariant |ys| == k
      invariant forall i :: 0 <= i < k ==> ys[i] == make(xs[i])
    {
      ys := ys + [make(xs[k])];
    }
  }

  /** `create_langchain_documents`: one document per pose, in the same
      order; document i carries pose i unchanged as its metadata and the
      stripped rendering of pose i as its page content. */
  method CreateDocuments(poses: seq<Pose>) returns (docs: seq<Doc>)
    ensures |docs| == |poses|
    ensures forall i :: 0 <= i < |poses| ==> docs[i].meta == poses[i]
    ensures forall i :: 0 <= i < |poses| ==> docs[i].text == Text(poses[i])
  {
    docs := Collect(poses, MakeDoc);
  }

  /** No shown value contains a newline, so each sits on one line. */
  predicate SingleLine(v: Shown) {
    && '\n' !in v.name && '\n' !in v.description && '\n' !in v.sanskritName
    && '\n' !in v.expertiseLevel && '\n' !in v.poseType
  }

  /** The formatted text is the five lines, in order, joined by newlines,
      with one more newline at the end. */
  lemma FormatIsJoinedLines(v: Shown)
    ensures Format(v) == Join(Lines(v), '\n') + "\n"
  {
    var ls := Lines(v);
    JoinFive(ls[0], ls[1], ls[2], ls[3], ls[4], '\n');
    assert ls == [ls[0], ls[1], ls[2], ls[3], ls[4]];
  }

  /** The rendering of any pose is five `key: value` lines joined by
      newlines, plus a final newline, in the order `name`, `description`,
      `sanskrit_name`, `expertise_level`, `pose_type`. A present key shows
      its stored value, even an empty one; an absent `name`, `description`
      or `sanskrit_name` shows "" and an absent `expertise_level` or
      `pose_type` shows "N/A". */
  lemma RenderIsFieldLines(pose: Pose)
    ensures Render(pose) == Join([
      "name: " + (if "name" in pose then pose["name"] else ""),
      "description: " + (if "description" in pose then pose["description"] else ""),
      "sanskrit_name: " + (if "sanskrit_name" in pose then pose["sanskrit_name"] else ""),
      "expertise_level: " + (if "expertise_level" in pose then pose["expertise_level"] else "N/A"),
      "pose_type: " + (if "pose_type" in pose then pose["pose_type"] else "N/A")
    ], '\n') + "\n"
  {
    ShownValuesDefaults(pose);
    FormatIsJoinedLines(ShownValues(pose));
  }

  /** When no shown value contains a newline, splitting the formatted text
      at newlines gives back exactly the five lines, in order, followed by
      the empty piece after the final newline. */
  lemma FormatSplitsIntoLines(v: Shown)
    requires SingleLine(v)
    ensures Split(Format(v), '\n') == Lines(v) + [""]
  {
    var ls := Lines(v);
    var all := ls + [""];
    assert forall i :: 0 <= i < |all| ==> '\n' !in all[i];
    JoinAppendEmpty(ls, '\n');
    FormatIsJoinedLines(v);
    SplitJoin(all, '\n');
  }

  /** Read back through `str.split('\n')`, the rendering of a pose whose
      shown values fit on one line has six pieces: the five `key: value`
      lines in the order `name`, `description`, `sanskrit_name`,
      `expertise_level`, `pose_type`, then the empty piece after the final
      newline. A key that is present shows its stored value, even an empty
      one; an absent `name`, `description` or `sanskrit_name` shows "" and
      an absent `expertise_level` or `pose_type` shows "N/A". */
  lemma RenderedLines(pose: Pose)
    requires SingleLine(ShownValues(pose))
    ensures var ls := Split(Render(pose), '\n');
      && |ls| == 6 && ls[5] == ""
      && ls[0] == "name: " + (if "name" in pose then pose["name"] else "")
      && ls[1] == "description: " + (if "description" in pose then pose["description"] else "")
      && ls[2] == "sanskrit_name: " + (if "sanskrit_name" in pose then pose["sanskrit_name"] else "")
      && ls[3] == "expertise_level: " + (if "expertise_level" in pose then pose["expertise_level"] else "N/A")
      && ls[4] == "pose_type: " + (if "pose_type" in pose then pose["pose_type"] else "N/A")
  {
    ShownValuesDefaults(pose);
    FormatSplitsIntoLines(ShownValues(pose));
  }

  /** The formatted text is the unreachable head, a space, the
      `pose_type` value and the final newline. */
  lemma FormatAfterHead(v: Shown)
    ensures Format(v) == Head(v) + (" " + v.poseType + "\n")
  {
    var ls := Lines(v);
    JoinFour(ls[0], ls[1], ls[2], ls[3], '\n');
    assert ls[..4] == [ls[0], ls[1], ls[2], ls[3]];
  }

  /** The head starts with the `n` of `name` and ends with the colon of
      `pose_type:`. */
  lemma HeadIsSolid(v: Shown)
    ensures |Head(v)| > 0 && Head(v)[0] == 'n' && Head(v)[|Head(v)| - 1] == ':'
    ensures "name: " <= Head(v)
  {
    var ls := Lines(v);
    JoinFour(ls[0], ls[1], ls[2], ls[3], '\n');
    assert ls[..4] == [ls[0], ls[1], ls[2], ls[3]];
    assert "name: " <= ls[0];
  }

  /** What the strip does to a formatted text: it leaves the head alone
      and right-strips only the space and value after `pose_type:`. */
  lemma StrippedAfterHead(v: Shown)
    ensures Strip(Format(v)) == Head(v) + RStrip(" " + v.poseType)
  {
    var h := Head(v);
    var w := " " + v.poseType;
    FormatAfterHead(v);
    HeadIsSolid(v);
    StripAfterSolid(h, w + "\n");
    assert AllSpace("\n");
    RStripAppendSpace(w, "\n");
  }

  /** What the strip does to a pose's rendering: the head survives whole,
      and only the space and `pose_type` value after it are right-stripped. */
  lemma TextAfterHead(pose: Pose)
    ensures var v := ShownValues(pose);
      Text(pose) == Head(v) + RStrip(" " + v.poseType)
  {
    StrippedAfterHead(ShownValues(pose));
  }

  /** The shape of every stripped formatted text, see `TextShape`. */
  lemma StrippedShape(v: Shown)
    ensures var c := Strip(Format(v));
      && "name: " <= c
      && Head(v) <= c && c <= Format(v)
      && AllSpace(Format(v)[|c|..])
      && |c| > 0 && !IsSpace(c[|c| - 1])
  {
    FormatAfterHead(v);
    HeadIsSolid(v);
    StripShapeAfterSolid(Head(v), " " + v.poseType + "\n");
    assert Head(v)[..6] == "name: ";
  }

  /** The front of every page content: it starts with "name: " (the
      leading strip never removes anything), and everything of the
      rendering up to the colon of `pose_type:` survives the strip. */
  lemma TextKeepsHead(pose: Pose)
    ensures "name: " <= Text(pose)
    ensures Head(ShownValues(pose)) <= Text(pose)
  {
    var v := ShownValues(pose);
    StrippedShape(v);
    assert Text(pose) == Strip(Format(v));
  }

  /** The end of every page content: it is the rendering with only
      whitespace cut from its end, and it does not end in whitespace, so in
      particular the final newline is gone. */
  lemma TextTrailing(pose: Pose)
    ensures Text(pose) <= Render(pose)
    ensures AllSpace(Render(pose)[|Text(pose)|..])
    ensures |Text(pose)| > 0 && !IsSpace(Text(pose)[|Text(pose)| - 1])
  {
    var r := Render(pose);
    HeadIsSolid(ShownValues(pose));
    FormatAfterHead(ShownValues(pose));
    assert r[0] == 'n';
    StripSolidStart(r);
  }

  /** The stripped formatted text is the formatted text minus exactly its
      final newline if and only if the `pose_type` value is not empty and
      does not end in whitespace, see `TextDropsOnlyNewline`. */
  lemma StrippedDropsOnlyNewline(v: Shown)
    ensures var f := Format(v);
      var p := v.poseType;
      Strip(f) == f[..|f| - 1] <==> (p != "" && !IsSpace(p[|p| - 1]))
  {
    var f := Format(v);
    var p := v.poseType;
    var w := " " + p;
    FormatAfterHead(v);
    HeadIsSolid(v);
    StripDropsOnlyLast(Head(v), w);
    assert f == Head(v) + (w + "\n");
    assert f[..|f| - 1] == Head(v) + w;
    assert w[|w| - 1] == if p == "" then ' ' else p[|p| - 1];
  }

  /** The page content is the rendering minus exactly its final newline
      if and only if the `pose_type` value shown is not empty and does not
      end in whitespace. The other values never matter: each is followed
      by a line that starts with a letter. */
  lemma TextDropsOnlyNewline(pose: Pose)
    ensures var r := Render(pose);
      var p := ShownValues(pose).poseType;
      Text(pose) == r[..|r| - 1] <==> (p != "" && !IsSpace(p[|p| - 1]))
  {
    var v := ShownValues(pose);
    StrippedDropsOnlyNewline(v);
    assert Text(pose) == Strip(Format(v));
    assert Render(pose) == Format(v);
  }

  /** An example record with all five keys. */
  const DownwardDog: Pose := map[
    "name" := "Downward Dog",
    "description" := "A pose...",
    "sanskrit_name" := "Adho Mukha Svanasana",
    "expertise_level" := "Beginner",
    "pose_type" := "Standing"
  ]

  /** The page content of the example record: its five lines. */
  const DownwardDogText: string :=
    ("name: " + "Downward Dog") + "\n"
    + ("description: " + "A pose...") + "\n"
    + ("sanskrit_name: " + "Adho Mukha Svanasana") + "\n"
    + ("expertise_level: " + "Beginner") + "\n"
    + ("pose_type: " + "Standing")

  /** The example record's shown values are its stored ones. */
  lemma DownwardDogShown()
    ensures ShownValues(DownwardDog) == Shown("Downward Dog", "A pose...", "Adho Mukha Svanasana", "Beginner", "Standing")
  {
    ShownValuesDefaults(DownwardDog);
  }

  /** The example record renders its five fields in order, each
      followed by a newline. */
  lemma DownwardDogRender()
    ensures Render(DownwardDog) == DownwardDogText + "\n"
  {
    DownwardDogShown();
  }

  /** The example record's page content is its rendering with only the
      final newline dropped. */
  lemma DownwardDogContent()
    ensures Text(DownwardDog) == DownwardDogText
  {
    var r := Render(DownwardDog);
    DownwardDogRender();
    DownwardDogShown();
    assert r[..|r| - 1] == DownwardDogText;
    assert !IsSpace("Standing"[7]);
    TextDropsOnlyNewline(DownwardDog);
  }

  /** Building the example record gives one document: the five fields in
      order with only the final newline dropped, and the record itself as
      metadata. */
  method DownwardDogExample() returns (docs: seq<Doc>)
    ensures docs == [Doc(DownwardDogText, DownwardDog)]
  {
    docs := CreateDocuments([DownwardDog]);
    DownwardDogContent();
  }
}
