/** Configuration trees (config/loader.py): laying a local file over the committed
    one, and removing the prose before the settings are hashed. */
module Overlay {
  import opened Common

  datatype Node =
    | Scalar(text: string)
    | List(items: seq<Node>)
    | Dict(entries: map<string, Node>)

  type Entries = map<string, Node>

  const PROSE: set<string> := {"note", "description", "validated_by", "validated_on", "verified_on"}

  /** `_strip_prose`. */
  function Strip(node: Node): Node
    decreases node, 1
  {
    match node
    case Scalar(_) => node
    case List(items) => List(seq(|items|, i requires 0 <= i < |items| => Strip(items[i])))
    case Dict(entries) => Dict(StripEntries(entries))
  }

  function StripEntries(entries: Entries): Entries
    decreases Dict(entries), 0
  {
    map k | k in entries && k !in PROSE :: Strip(entries[k])
  }

  predicate BothDicts(a: Node, b: Node) { a.Dict? && b.Dict? }

  /** What laying `overlay` over `base` gives. */
  function Apply(base: Entries, overlay: Entries): Entries
    decreases Dict(overlay)
  {
    map k | k in base.Keys + overlay.Keys ::
      if k !in overlay then base[k]
      else if k in base && BothDicts(base[k], overlay[k])
      then Dict(Apply(base[k].entries, overlay[k].entries))
      else overlay[k]
  }

  /** `_apply_overlay`: the entries of the overlay are written one after another, in any
      order, into a copy of the base. */
  method ApplyOverlay(base: Entries, overlay: Entries) returns (out: Entries)
    ensures out == Apply(base, overlay)
    decreases Dict(overlay)
  {
    out := base;
    var left := overlay.Keys;
    while left != {}
      invariant left <= overlay.Keys
      invariant out.Keys == base.Keys + (overlay.Keys - left)
      invariant forall k :: k in out ==> out[k] == if k in left then base[k] else Apply(base, overlay)[k]
      decreases left
    {
      var key :| key in left;
      var value := overlay[key];
      if key in out && out[key].Dict? && value.Dict? {
        var inner := ApplyOverlay(out[key].entries, value.entries);
        out := out[key := Dict(inner)];
      } else {
        out := out[key := value];
      }
      left := left - {key};
    }
  }

  // ---- prose ------------------------------------------------------------------------------

  lemma {:induction false} StripIsIdempotent(node: Node)
    ensures Strip(Strip(node)) == Strip(node)
  {
    match node
    case Scalar(_) =>
    case List(items) =>
      forall i | 0 <= i < |items| ensures Strip(Strip(items[i])) == Strip(items[i]) {
        StripIsIdempotent(items[i]);
      }
    case Dict(entries) =>
      forall k | k in entries ensures Strip(Strip(entries[k])) == Strip(entries[k]) {
        StripIsIdempotent(entries[k]);
      }
  }

  /** Stripping the merged tree is merging the stripped trees. */
  lemma {:induction false} StripDistributes(base: Entries, overlay: Entries)
    ensures StripEntries(Apply(base, overlay)) == Apply(StripEntries(base), StripEntries(overlay))
    decreases Dict(overlay)
  {
    var left, right := StripEntries(Apply(base, overlay)), Apply(StripEntries(base), StripEntries(overlay));
    assert left.Keys == right.Keys;
    forall k | k in left ensures left[k] == right[k] {
      assert left[k] == Strip(Apply(base, overlay)[k]);
      if k in base && k in overlay && BothDicts(base[k], overlay[k]) {
        StripDistributes(base[k].entries, overlay[k].entries);
        assert BothDicts(Strip(base[k]), Strip(overlay[k]));
        assert right[k] == Dict(Apply(StripEntries(base[k].entries), StripEntries(overlay[k].entries)));
      } else if k in base && k in overlay {
        assert !BothDicts(Strip(base[k]), Strip(overlay[k]));
      }
    }
  }

  // ---- what stands where -----------------------------------------------------------------------

  /** One step down a tree. */
  datatype Step = Key(name: string) | Item(index: nat)

  /** What stands at the end of a path, if the path leads anywhere. */
  ghost function Value(node: Node, path: seq<Step>): Option<Node>
    decreases |path|
  {
    if path == [] then Some(node)
    else if node.Dict? && path[0].Key? && path[0].name in node.entries then
      Value(node.entries[path[0].name], path[1..])
    else if node.List? && path[0].Item? && path[0].index < |node.items| then
      Value(node.items[path[0].index], path[1..])
    else None
  }

  /** Somewhere before its end the path meets a value that is not a mapping. */
  ghost predicate Blocked(node: Node, path: seq<Step>) {
    exists n :: 0 <= n < |path| && Value(node, path[..n]).Some? && !Value(node, path[..n]).value.Dict?
  }

  lemma BlockedBelow(node: Node, path: seq<Step>, below: Node)
    requires path != [] && node.Dict? && path[0].Key? && path[0].name in node.entries
    requires below == node.entries[path[0].name]
    ensures Blocked(node, path) <==> Blocked(below, path[1..])
  {
    if n :| 0 <= n < |path| && Value(node, path[..n]).Some? && !Value(node, path[..n]).value.Dict? {
      assert n > 0 && path[..n][1..] == path[1..][..n - 1];
    }
    if n :| 0 <= n < |path| - 1 && Value(below, path[1..][..n]).Some? && !Value(below, path[1..][..n]).value.Dict? {
      assert path[..n + 1][1..] == path[1..][..n];
    }
  }

  /** The merged tree, at the end of any path of keys: what the overlay says there, or a mapping if it says a
      mapping; and where it says nothing, what the base says, unless the overlay has put
      something else than a mapping in the way. */
  lemma {:induction false} MergedAt(base: Entries, overlay: Entries, path: seq<Step>)
    requires forall i :: 0 <= i < |path| ==> path[i].Key?
    ensures var said, merged := Value(Dict(overlay), path), Value(Dict(Apply(base, overlay)), path);
            && (said.Some? && !said.value.Dict? ==> merged == said)
            && (said.Some? && said.value.Dict? ==> merged.Some? && merged.value.Dict?)
            && (said.None? ==> merged == if Blocked(Dict(overlay), path) then None else Value(Dict(base), path))
    decreases |path|
  {
    if path == [] {
    } else if path[0].Key? && path[0].name in overlay {
      var k := path[0].name;
      BlockedBelow(Dict(overlay), path, overlay[k]);
      if k in base && BothDicts(base[k], overlay[k]) {
        MergedAt(base[k].entries, overlay[k].entries, path[1..]);
      } else {
        PathIsBlocked(overlay[k], path[1..]);
        if k in base {
          EndsNowhere(base[k], path[1..]);
          EndsNowhere(overlay[k], path[1..]);
        }
      }
    } else {
      NothingBlocks(overlay, path);
    }
  }

  lemma {:induction false} PathIsBlocked(node: Node, path: seq<Step>)
    ensures !node.Dict? && path != [] ==> Blocked(node, path)
  {
    if !node.Dict? && path != [] {
      assert Value(node, path[..0]) == Some(node);
    }
  }

  lemma EndsNowhere(node: Node, path: seq<Step>)
    requires !node.Dict? && path != [] ==> path[0].Key?
    ensures !node.Dict? && path != [] ==> Value(node, path).None?
  {
  }

  lemma NothingBlocks(overlay: Entries, path: seq<Step>)
    requires path != [] && !(path[0].Key? && path[0].name in overlay)
    ensures !Blocked(Dict(overlay), path)
  {
    forall n | 0 < n < |path| ensures Value(Dict(overlay), path[..n]).None? {
      assert path[..n][0] == path[0];
    }
  }

  /** The same plain value, a list as long, or a mapping too. */
  ghost predicate SameShape(a: Node, b: Node) {
    match a
    case Scalar(_) => a == b
    case List(items) => b.List? && |b.items| == |items|
    case Dict(_) => b.Dict?
  }

  ghost predicate ThroughProse(path: seq<Step>) {
    exists i :: 0 <= i < |path| && path[i].Key?
                && path[i].name in {"note", "description", "validated_by", "validated_on", "verified_on"}
  }

  lemma ProseBelow(path: seq<Step>)
    requires path != []
    ensures ThroughProse(path) <==> ThroughProse(path[1..]) || ThroughProse([path[0]])
  {
    if i :| 0 <= i < |path| && path[i].Key?
            && path[i].name in {"note", "description", "validated_by", "validated_on", "verified_on"} {
      if i == 0 {
        assert [path[0]][0] == path[0];
      } else {
        assert path[1..][i - 1] == path[i];
      }
    }
    if i :| 0 <= i < |path| - 1 && path[1..][i].Key?
            && path[1..][i].name in {"note", "description", "validated_by", "validated_on", "verified_on"} {
      assert path[i + 1] == path[1..][i];
    }
  }

  /** The stripped tree, path by path: nothing stands behind a key of prose, however deep and
      in whatever list, and everything else stands where it stood. */
  lemma {:induction false} StrippedAt(node: Node, path: seq<Step>)
    ensures var was, left := Value(node, path), Value(Strip(node), path);
            && (left.Some? <==> was.Some? && !ThroughProse(path))
            && (left.Some? ==> SameShape(was.value, left.value))
    decreases |path|
  {
    if path != [] {
      ProseBelow(path);
      if node.Dict? && path[0].Key? && path[0].name in node.entries {
        StrippedAt(node.entries[path[0].name], path[1..]);
      } else if node.List? && path[0].Item? && path[0].index < |node.items| {
        StrippedAt(node.items[path[0].index], path[1..]);
      }
    }
  }

  // ---- merging ------------------------------------------------------------------------------

  lemma {:induction false} ApplySelf(entries: Entries)
    ensures Apply(entries, entries) == entries
    decreases Dict(entries)
  {
    forall k | k in entries && entries[k].Dict?
      ensures Apply(entries[k].entries, entries[k].entries) == entries[k].entries
    {
      ApplySelf(entries[k].entries);
    }
  }

  /** Laying the same overlay twice is laying it once. */
  lemma {:induction false} ApplyTwice(base: Entries, overlay: Entries)
    ensures Apply(Apply(base, overlay), overlay) == Apply(base, overlay)
    decreases Dict(overlay)
  {
    var once := Apply(base, overlay);
    var twice := Apply(once, overlay);
    assert twice.Keys == once.Keys;
    forall k | k in once ensures twice[k] == once[k] {
      if k in overlay && overlay[k].Dict? {
        if k in base && base[k].Dict? {
          ApplyTwice(base[k].entries, overlay[k].entries);
        } else {
          ApplySelf(overlay[k].entries);
        }
      }
    }
  }

  /** Every setting of the overlay is in the base already, with that value. */
  ghost predicate Covers(base: Entries, overlay: Entries)
    decreases Dict(overlay)
  {
    forall k :: k in overlay ==>
      k in base
      && if BothDicts(base[k], overlay[k]) then Covers(base[k].entries, overlay[k].entries)
         else base[k] == overlay[k]
  }

  lemma {:induction false} NothingNewExactlyWhen(base: Entries, overlay: Entries)
    ensures Apply(base, overlay) == base <==> Covers(base, overlay)
    decreases Dict(overlay)
  {
    forall k | k in overlay && k in base && BothDicts(base[k], overlay[k])
      ensures Apply(base[k].entries, overlay[k].entries) == base[k].entries
              <==> Covers(base[k].entries, overlay[k].entries)
    {
      NothingNewExactlyWhen(base[k].entries, overlay[k].entries);
    }
    var out := Apply(base, overlay);
    if Covers(base, overlay) {
      assert out.Keys == base.Keys;
      assert forall k :: k in out ==> out[k] == base[k];
    } else {
      var k :| k in overlay
               && !(k in base
                    && if BothDicts(base[k], overlay[k]) then Covers(base[k].entries, overlay[k].entries)
                       else base[k] == overlay[k]);
      assert k in out;
    }
  }

  /** A local file leaves the raw settings alone exactly when, prose aside, it says nothing
      the committed file does not already say. */
  lemma {:induction false} SilentExactlyWhen(base: Entries, overlay: Entries)
    ensures StripEntries(Apply(base, overlay)) == StripEntries(base)
            <==> Covers(StripEntries(base), StripEntries(overlay))
  {
    StripDistributes(base, overlay);
    NothingNewExactlyWhen(StripEntries(base), StripEntries(overlay));
  }

  // ---- what is hashed -------------------------------------------------------------------------

  /** Validation: the settings a raw tree stands for, written out in full, or a refusal. */
  type Schema = Entries -> Option<Entries>

  /** What `config_hash` digests: the validated settings without their prose. */
  function Hashed(schema: Schema, raw: Entries): Option<Entries> {
    match schema(raw)
    case None => None
    case Some(settings) => Some(StripEntries(settings))
  }

  /** Prose may decide whether a tree is accepted, never what its settings are. */
  ghost predicate ProseBlind(schema: Schema) {
    forall a, b :: schema(a).Some? && schema(b).Some? && StripEntries(a) == StripEntries(b) ==>
      Hashed(schema, a) == Hashed(schema, b)
  }

  ghost predicate KeepsHash(schema: Schema, base: Entries, overlay: Entries) {
    Hashed(schema, Apply(base, overlay)) == Hashed(schema, base)
  }

  /** An overlay that says nothing new, prose aside, keeps the hash of whatever it loads as. */
  lemma {:induction false} SilentOverlayKeepsTheHash(schema: Schema, base: Entries, overlay: Entries)
    requires ProseBlind(schema) && schema(base).Some? && schema(Apply(base, overlay)).Some?
    requires Covers(StripEntries(base), StripEntries(overlay))
    ensures KeepsHash(schema, base, overlay)
  {
    SilentExactlyWhen(base, overlay);
  }

  // ---- validation field by field --------------------------------------------------------------

  type Path = seq<string>

  /** The declared settings. A field reads its whole raw value, which may be a plain value or a
      mapping, and writes it out in full; any other mapping is a section of fields. A setting
      that is absent from a section is written out with its default. */
  datatype Fields = Fields(
    isField: Path -> bool,
    read: (Path, Node) -> Node,
    defaults: Path -> Entries)

  predicate IsSection(fields: Fields, path: Path, node: Node) {
    node.Dict? && !fields.isField(path)
  }

  function WrittenNode(fields: Fields, path: Path, node: Node): Node
    decreases node, 1
  {
    if IsSection(fields, path, node) then Dict(Written(fields, path, node.entries)) else fields.read(path, node)
  }

  /** The settings of one section, written out. */
  function Written(fields: Fields, path: Path, entries: Entries): Entries
    decreases Dict(entries), 0
  {
    map k | k in entries.Keys + fields.defaults(path).Keys ::
      if k in entries then WrittenNode(fields, path + [k], entries[k]) else fields.defaults(path)[k]
  }

  function FieldSchema(fields: Fields): Schema {
    (raw: Entries) => Some(Written(fields, [], raw))
  }

  /** What is in force at key `k` of a section. */
  function InForce(fields: Fields, path: Path, entries: Entries, k: string): Option<Node> {
    if k in entries then Some(WrittenNode(fields, path + [k], entries[k]))
    else if k in fields.defaults(path) then Some(fields.defaults(path)[k])
    else None
  }

  /** The raw value at `k` once the overlay is laid. */
  function Laid(base: Entries, overlay: Entries, k: string): Node
    requires k in overlay
  {
    if k in base && BothDicts(base[k], overlay[k]) then Dict(Apply(base[k].entries, overlay[k].entries))
    else overlay[k]
  }

  /** Every setting the overlay lays reads, prose aside, as what is already in force there. */
  ghost predicate LaysNothingNew(fields: Fields, path: Path, base: Entries, overlay: Entries)
    decreases Dict(overlay), 1
  {
    forall k :: k in overlay && k !in PROSE ==> LaysNothingAt(fields, path, base, overlay, k)
  }

  ghost predicate LaysNothingAt(fields: Fields, path: Path, base: Entries, overlay: Entries, k: string)
    requires k in overlay
    decreases Dict(overlay), 0
  {
    var was := InForce(fields, path, base, k);
    && was.Some?
    && if k in base && BothDicts(base[k], overlay[k]) && !fields.isField(path + [k])
       then LaysNothingNew(fields, path + [k], base[k].entries, overlay[k].entries)
       else Strip(WrittenNode(fields, path + [k], Laid(base, overlay, k))) == Strip(was.value)
  }

  lemma WrittenAt(fields: Fields, path: Path, entries: Entries, k: string)
    requires k !in PROSE
    ensures k in StripEntries(Written(fields, path, entries)) <==> InForce(fields, path, entries, k).Some?
    ensures InForce(fields, path, entries, k).Some? ==>
              StripEntries(Written(fields, path, entries))[k] == Strip(InForce(fields, path, entries, k).value)
  {
  }

  lemma LaidAt(base: Entries, overlay: Entries, k: string)
    ensures k in Apply(base, overlay) <==> k in base || k in overlay
    ensures k in overlay ==> Apply(base, overlay)[k] == Laid(base, overlay, k)
    ensures k in base && k !in overlay ==> Apply(base, overlay)[k] == base[k]
  {
  }

  /** The settings of a section are unchanged at `k` by an overlay that has nothing there. */
  lemma UntouchedAt(fields: Fields, path: Path, base: Entries, overlay: Entries, k: string)
    requires k !in overlay
    ensures InForce(fields, path, Apply(base, overlay), k) == InForce(fields, path, base, k)
  {
    LaidAt(base, overlay, k);
  }

  lemma TouchedAt(fields: Fields, path: Path, base: Entries, overlay: Entries, k: string)
    requires k in overlay
    ensures InForce(fields, path, Apply(base, overlay), k)
            == Some(WrittenNode(fields, path + [k], Laid(base, overlay, k)))
  {
    LaidAt(base, overlay, k);
  }

  lemma SectionAt(fields: Fields, path: Path, base: Entries, overlay: Entries, k: string)
    requires k in overlay && k in base && BothDicts(base[k], overlay[k]) && !fields.isField(path + [k])
    ensures Strip(WrittenNode(fields, path + [k], Laid(base, overlay, k)))
            == Dict(StripEntries(Written(fields, path + [k], Apply(base[k].entries, overlay[k].entries))))
    ensures Strip(WrittenNode(fields, path + [k], base[k]))
            == Dict(StripEntries(Written(fields, path + [k], base[k].entries)))
  {
  }

  /** The condition at one key says that the setting there is unchanged. */
  lemma {:induction false} SameAt(fields: Fields, path: Path, base: Entries, overlay: Entries, k: string)
    requires k in overlay && k !in PROSE
    requires k in base && BothDicts(base[k], overlay[k]) ==>
               (StripEntries(Written(fields, path + [k], Apply(base[k].entries, overlay[k].entries)))
                == StripEntries(Written(fields, path + [k], base[k].entries))
                <==> LaysNothingNew(fields, path + [k], base[k].entries, overlay[k].entries))
    ensures k in StripEntries(Written(fields, path, Apply(base, overlay)))
    ensures (k in StripEntries(Written(fields, path, base))
             && StripEntries(Written(fields, path, Apply(base, overlay)))[k]
                == StripEntries(Written(fields, path, base))[k])
            <==> LaysNothingAt(fields, path, base, overlay, k)
  {
    WrittenAt(fields, path, base, k);
    WrittenAt(fields, path, Apply(base, overlay), k);
    TouchedAt(fields, path, base, overlay, k);
    if k in base && BothDicts(base[k], overlay[k]) && !fields.isField(path + [k]) {
      SectionAt(fields, path, base, overlay, k);
    }
  }

  lemma SameElsewhere(fields: Fields, path: Path, base: Entries, overlay: Entries, k: string)
    requires k !in PROSE && k !in overlay
    ensures var after := StripEntries(Written(fields, path, Apply(base, overlay)));
            var before := StripEntries(Written(fields, path, base));
            (k in after <==> k in before) && (k in after ==> after[k] == before[k])
  {
    WrittenAt(fields, path, base, k);
    WrittenAt(fields, path, Apply(base, overlay), k);
    UntouchedAt(fields, path, base, overlay, k);
  }

  /** Laying an overlay leaves the written settings alone, prose aside, exactly when it lays
      nothing new. */
  lemma {:induction false} WrittenUnchangedExactlyWhen(fields: Fields, path: Path, base: Entries, overlay: Entries)
    ensures StripEntries(Written(fields, path, Apply(base, overlay))) == StripEntries(Written(fields, path, base))
            <==> LaysNothingNew(fields, path, base, overlay)
    decreases Dict(overlay)
  {
    var after := StripEntries(Written(fields, path, Apply(base, overlay)));
    var before := StripEntries(Written(fields, path, base));
    forall k | k !in overlay.Keys - PROSE
      ensures (k in after <==> k in before) && (k in after ==> after[k] == before[k])
    {
      if k !in PROSE {
        SameElsewhere(fields, path, base, overlay, k);
      }
    }
    forall k | k in overlay && k !in PROSE
      ensures k in after
      ensures (k in before && after[k] == before[k]) <==> LaysNothingAt(fields, path, base, overlay, k)
    {
      if k in base && BothDicts(base[k], overlay[k]) {
        WrittenUnchangedExactlyWhen(fields, path + [k], base[k].entries, overlay[k].entries);
      }
      SameAt(fields, path, base, overlay, k);
    }
    SameExactlyWhen(after, before, overlay.Keys - PROSE);
  }

  /** Mappings that agree elsewhere are the same exactly when they agree on `keys` too. */
  lemma SameExactlyWhen(after: Entries, before: Entries, keys: set<string>)
    requires forall k :: k !in keys ==> (k in after <==> k in before) && (k in after ==> after[k] == before[k])
    requires forall k :: k in keys ==> k in after
    ensures after == before <==> forall k :: k in keys ==> k in before && after[k] == before[k]
  {
  }

  /** Under such a schema an overlay keeps the hash exactly when each setting it lays reads as
      what is already in force, whatever the fields normalise and whatever defaults they have. */
  lemma {:induction false} KeepsHashExactlyWhen(fields: Fields, base: Entries, overlay: Entries)
    ensures KeepsHash(FieldSchema(fields), base, overlay) <==> LaysNothingNew(fields, [], base, overlay)
  {
    WrittenUnchangedExactlyWhen(fields, [], base, overlay);
  }

  // ---- the log level --------------------------------------------------------------------------

  function UpperChar(c: char): char {
    if 'a' <= c <= 'z' then (c as int - 'a' as int + 'A' as int) as char else c
  }

  /** `str.upper` on ASCII letters. */
  function Upper(text: string): string {
    seq(|text|, i requires 0 <= i < |text| => UpperChar(text[i]))
  }

  const LOGGING: Path := ["runtime", "logging"]
  const DEFAULT_LEVEL := "INFO"

  /** The log level is read in either case and has a default; nothing else is normalised. */
  function ReadLevel(path: Path, node: Node): Node {
    if path == LOGGING + ["level"] && node.Scalar? then Scalar(Upper(node.text)) else node
  }

  function LevelDefault(path: Path): Entries {
    if path == LOGGING then map["level" := Scalar(DEFAULT_LEVEL)] else map[]
  }

  function LevelFields(): Fields {
    Fields(path => path == LOGGING + ["level"], ReadLevel, LevelDefault)
  }

  function LevelTree(level: string): Entries {
    map["runtime" := Dict(map["logging" := Dict(map["level" := Scalar(level)])])]
  }

  /** The raw tree has a logging section, whose level is a plain value if it is there at all. */
  predicate HasLogging(raw: Entries) {
    && "runtime" in raw && raw["runtime"].Dict?
    && "logging" in raw["runtime"].entries && raw["runtime"].entries["logging"].Dict?
    && var logging := raw["runtime"].entries["logging"].entries;
       "level" in logging ==> logging["level"].Scalar?
  }

  function LevelInForce(raw: Entries): string
    requires HasLogging(raw)
  {
    var logging := raw["runtime"].entries["logging"].entries;
    if "level" in logging then Upper(logging["level"].text) else "INFO"
  }

  /** Letters of the one case become those of the other, and nothing else changes. */
  lemma UpperMeans(text: string, i: nat)
    requires i < |text|
    ensures |Upper(text)| == |text|
    ensures if 'a' <= text[i] <= 'z' then 'A' <= Upper(text)[i] <= 'Z' && Upper(text)[i] as int == text[i] as int - 32
            else Upper(text)[i] == text[i]
  {
  }

  /** The condition for an overlay of one key. */
  lemma LaysOne(fields: Fields, path: Path, base: Entries, k: string, node: Node)
    requires k !in PROSE
    ensures var was := InForce(fields, path, base, k);
            LaysNothingNew(fields, path, base, map[k := node])
            <==> was.Some?
                 && if k in base && BothDicts(base[k], node) && !fields.isField(path + [k])
                    then LaysNothingNew(fields, path + [k], base[k].entries, node.entries)
                    else Strip(WrittenNode(fields, path + [k], Laid(base, map[k := node], k))) == Strip(was.value)
  {
  }

  lemma LaysLevel(logging: Entries, level: string)
    requires "level" in logging ==> logging["level"].Scalar?
    ensures LaysNothingNew(LevelFields(), LOGGING, logging, map["level" := Scalar(level)])
            <==> Upper(level) == if "level" in logging then Upper(logging["level"].text) else DEFAULT_LEVEL
  {
    LaysOne(LevelFields(), LOGGING, logging, "level", Scalar(level));
  }

  /** An overlay that sets nothing but the log level keeps the hash exactly when it names, in
      either case, the level in force: the one set, or the default if none is. */
  lemma {:induction false} LevelKeepsHashExactlyWhen(base: Entries, level: string)
    requires HasLogging(base)
    ensures KeepsHash(FieldSchema(LevelFields()), base, LevelTree(level)) <==> Upper(level) == LevelInForce(base)
  {
    var fields := LevelFields();
    var runtime := base["runtime"].entries;
    var logging := runtime["logging"].entries;
    assert [] + ["runtime"] == ["runtime"] && ["runtime"] + ["logging"] == LOGGING;
    assert |["runtime"]| != |LOGGING + ["level"]| && |LOGGING| != |LOGGING + ["level"]|;
    KeepsHashExactlyWhen(fields, base, LevelTree(level));
    LaysOne(fields, [], base, "runtime", Dict(map["logging" := Dict(map["level" := Scalar(level)])]));
    LaysOne(fields, ["runtime"], runtime, "logging", Dict(map["level" := Scalar(level)]));
    LaysLevel(logging, level);
  }

  /** Every path of mappings and keys in `a` is a path of `c`. */
  ghost predicate Within(a: Entries, c: Entries)
    decreases Dict(c)
  {
    forall k :: k in a ==> k in c && (BothDicts(a[k], c[k]) ==> Within(a[k].entries, c[k].entries))
  }

  lemma {:induction false} OverwrittenExactlyWhen(a: Entries, c: Entries)
    ensures Apply(a, c) == c <==> Within(a, c)
    decreases Dict(c)
  {
    forall k | k in a && k in c && BothDicts(a[k], c[k])
      ensures Apply(a[k].entries, c[k].entries) == c[k].entries <==> Within(a[k].entries, c[k].entries)
    {
      OverwrittenExactlyWhen(a[k].entries, c[k].entries);
    }
    var out := Apply(a, c);
    if Within(a, c) {
      assert out.Keys == c.Keys;
      assert forall k :: k in out ==> out[k] == c[k];
    } else {
      var k :| k in a && !(k in c && (BothDicts(a[k], c[k]) ==> Within(a[k].entries, c[k].entries)));
      assert k in out;
    }
  }

  /** Nowhere does `b` replace by a plain value a mapping of `a` whose settings would
      survive being merged with the mapping `c` puts there. */
  ghost predicate Groups(a: Entries, b: Entries, c: Entries)
    decreases Dict(c)
  {
    forall k :: k in a && k in b && k in c && BothDicts(a[k], c[k]) ==>
      if b[k].Dict? then Groups(a[k].entries, b[k].entries, c[k].entries)
      else Within(a[k].entries, c[k].entries)
  }

  lemma GroupsAt(a: Entries, b: Entries, c: Entries, k: string)
    requires k in a && k in b && k in c && BothDicts(a[k], c[k])
    ensures Apply(Apply(a, b), c)[k]
            == if b[k].Dict? then Dict(Apply(Apply(a[k].entries, b[k].entries), c[k].entries)) else c[k]
    ensures Apply(a, Apply(b, c))[k] == if b[k].Dict? then Dict(Apply(a[k].entries, Apply(b[k].entries, c[k].entries)))
                                       else Dict(Apply(a[k].entries, c[k].entries))
  {
  }

  lemma GroupsElsewhere(a: Entries, b: Entries, c: Entries, k: string)
    requires k in a || k in b || k in c
    requires !(k in a && k in b && k in c && BothDicts(a[k], c[k]))
    ensures k in Apply(Apply(a, b), c) && k in Apply(a, Apply(b, c))
    ensures Apply(Apply(a, b), c)[k] == Apply(a, Apply(b, c))[k]
  {
  }

  /** Merging is not associative: which of two overlays is merged first matters exactly
      when a plain value in the middle one hides a mapping from the last. */
  lemma {:induction false} GroupingIsIrrelevantExactlyWhen(a: Entries, b: Entries, c: Entries)
    ensures Apply(Apply(a, b), c) == Apply(a, Apply(b, c)) <==> Groups(a, b, c)
    decreases Dict(c)
  {
    var left, right := Apply(Apply(a, b), c), Apply(a, Apply(b, c));
    assert left.Keys == right.Keys == a.Keys + b.Keys + c.Keys;
    forall k | k in left && !(k in a && k in b && k in c && BothDicts(a[k], c[k])) ensures left[k] == right[k] {
      GroupsElsewhere(a, b, c, k);
    }
    forall k | k in a && k in b && k in c && BothDicts(a[k], c[k])
      ensures left[k] == right[k] <==>
              if b[k].Dict? then Groups(a[k].entries, b[k].entries, c[k].entries)
              else Within(a[k].entries, c[k].entries)
    {
      GroupsAt(a, b, c, k);
      if b[k].Dict? {
        GroupingIsIrrelevantExactlyWhen(a[k].entries, b[k].entries, c[k].entries);
      } else {
        OverwrittenExactlyWhen(a[k].entries, c[k].entries);
      }
    }
    assert left == right <==> forall k :: k in left ==> left[k] == right[k];
  }

  /** The smallest case in which grouping matters. */
  lemma GroupingCanMatter()
    ensures var a: Entries := map["k" := Dict(map["x" := Scalar("1")])];
            var b: Entries := map["k" := Scalar("0")];
            var c: Entries := map["k" := Dict(map["y" := Scalar("2")])];
            Apply(Apply(a, b), c) != Apply(a, Apply(b, c))
  {
    var a: Entries := map["k" := Dict(map["x" := Scalar("1")])];
    var b: Entries := map["k" := Scalar("0")];
    var c: Entries := map["k" := Dict(map["y" := Scalar("2")])];
    assert "x" in a["k"].entries && "x" !in c["k"].entries;
    assert !Within(a["k"].entries, c["k"].entries);
    assert !Groups(a, b, c);
    GroupingIsIrrelevantExactlyWhen(a, b, c);
  }
}
