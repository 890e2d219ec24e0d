/** The per-file dispatch and batch aggregation of `ConvertJSONtoEDCLineage`.

    Every file of the configured directory is an already-parsed `Document`; the
    schema checker, the attribute lookup, the file writer, the lineage generator
    and the catalog client are fields of `Collaborators`. Each operation returns
    its result together with the trace of collaborator calls it made, so the
    contracts can say which collaborator runs for which classification. */
module LoadJsonMetadata {
  import opened Results

  /** One entry of `source_target_attribute_links`. */
  datatype Link = Link(
    transformationUid: string,
    sources: seq<string>,
    target: string,
    description: string,
    formula: string)

  /** A JSON value as far as the dispatcher cares: a string, or anything else. */
  datatype Value = Text(text: string) | NonText

  /** The keys of a metadata document the dispatcher reads; `None` is an absent key.
      `entity_type` is only compared with "file", so any non-string value is just
      some other string here; `name` and `uid` are joined to log texts, where a
      non-string raises. */
  datatype Document = Document(
    entityType: Option<string>,
    name: Option<Value>,
    uid: Option<Value>,
    links: Option<seq<Link>>)

  /** The classification reported by the schema checker, as the router reads it. */
  datatype MetaType =
    | PhysicalEntity
    | PhysicalEntityAssociation
    | PhysicalAttributeAssociation
    | Ignored(tag: string)

  const PhysicalEntityTag := "physical_entity"
  const PhysicalEntityAssociationTag := "physical_entity_association"
  const PhysicalAttributeAssociationTag := "physical_attribute_association"

  predicate IsRoutedTag(tag: string)
  {
    tag == PhysicalEntityTag || tag == PhysicalEntityAssociationTag || tag == PhysicalAttributeAssociationTag
  }

  /** The string the schema checker uses for a classification. */
  function Tag(m: MetaType): string
  {
    match m
    case PhysicalEntity => PhysicalEntityTag
    case PhysicalEntityAssociation => PhysicalEntityAssociationTag
    case PhysicalAttributeAssociation => PhysicalAttributeAssociationTag
    case Ignored(t) => t
  }

  /** Reads a classification string; anything but the three routed tags is ignored. */
  function Classify(tag: string): (m: MetaType)
    ensures m.Ignored? <==> !IsRoutedTag(tag)
    ensures Tag(m) == tag
  {
    if tag == PhysicalEntityTag then PhysicalEntity
    else if tag == PhysicalEntityAssociationTag then PhysicalEntityAssociation
    else if tag == PhysicalAttributeAssociationTag then PhysicalAttributeAssociation
    else Ignored(tag)
  }

  /** What `check_schema` reports: its result, and the classification it found. */
  datatype SchemaCheck = SchemaCheck(result: Result, metaType: string)

  /** What `find_json` reports: its result, and the attribute list it collected. */
  datatype Lookup = Lookup(result: Result, attributes: seq<string>)

  /** The collaborators whose code is not part of this model. `sendToEdc` sends the
      payload the lineage client built for the given classification and document. */
  datatype Collaborators = Collaborators(
    checkSchema: Document -> SchemaCheck,
    findAttributes: string -> Lookup,
    listToString: seq<string> -> string,
    writeLocalFile: (string, string) -> Result,
    generateLineage: (string, Document) -> Result,
    sendToEdc: (string, Document) -> Result)

  /** The configuration strings the dispatcher consults. */
  datatype Settings = Settings(target: string, metadataStore: string)

  datatype Env = Env(settings: Settings, messages: Messages, collab: Collaborators)

  /** A call into a collaborator with an outside effect or an outside answer. */
  datatype Effect =
    | FindAttributes(entityUid: string)
    | WriteLocalFile(filename: string, content: string)
    | GenerateLineage(metaType: string)
    | SendToEdc(metaType: string)

  /** A Python exception that escapes the dispatcher: a `KeyError` on a document key,
      or the `TypeError` of joining a key's non-string value to a string. */
  datatype Fault = MissingKey(key: string) | NotText(key: string)

  datatype Outcome = Returned(result: Result) | Raised(fault: Fault)

  datatype Reply = Reply(outcome: Outcome, effects: seq<Effect>)

  predicate Writes(effects: seq<Effect>)
  {
    exists i :: 0 <= i < |effects| && effects[i].WriteLocalFile?
  }

  predicate ReachesLineage(effects: seq<Effect>)
  {
    exists i :: 0 <= i < |effects| && (effects[i].GenerateLineage? || effects[i].SendToEdc?)
  }

  /** `create_metafile`: writes the header-only file, but only to the local target. */
  function CreateMetafile(env: Env, filename: string, attributes: seq<string>): (r: Reply)
    ensures r.outcome.Returned?
    ensures Writes(r.effects) <==> env.settings.target == "local"
    ensures env.settings.target == "local" ==>
      var content := env.collab.listToString(attributes);
      r.effects == [WriteLocalFile(filename, content)]
      && r.outcome.result == env.collab.writeLocalFile(filename, content)
    ensures env.settings.target != "local" ==>
      r.effects == [] && r.outcome.result == env.messages.notImplemented
  {
    var content := env.collab.listToString(attributes);
    if env.settings.target == "local" then
      var e := [WriteLocalFile(filename, content)];
      assert e[0].WriteLocalFile?;
      Reply(Returned(env.collab.writeLocalFile(filename, content)), e)
    else
      Reply(Returned(env.messages.notImplemented), [])
  }

  /** `generate_file_structure`: only documents whose `entity_type` is "file" get a
      metafile, named after `name`, and only after the attribute lookup for their
      `uid` succeeded. `name` is read and logged before `uid` is read and logged. */
  function GenerateFileStructure(env: Env, doc: Document): (r: Reply)
    ensures doc.entityType.None? ==> r == Reply(Raised(MissingKey("entity_type")), [])
    ensures doc.entityType.Some? && doc.entityType.value != "file" ==>
      r == Reply(Returned(env.messages.ok), [])
    ensures doc.entityType == Some("file") ==>
      && (doc.name.None? ==> r == Reply(Raised(MissingKey("name")), []))
      && (doc.name == Some(NonText) ==> r == Reply(Raised(NotText("name")), []))
      && (doc.name.Some? && doc.name.value.Text? && doc.uid.None? ==>
            r == Reply(Raised(MissingKey("uid")), []))
      && (doc.name.Some? && doc.name.value.Text? && doc.uid == Some(NonText) ==>
            r == Reply(Raised(NotText("uid")), []))
    ensures IsFileWithKeys(doc) ==>
      var uid := doc.uid.value.text;
      var lookup := env.collab.findAttributes(uid);
      && (!IsOk(lookup.result) ==> r == Reply(Returned(lookup.result), [FindAttributes(uid)]))
      && (IsOk(lookup.result) ==>
            var m := CreateMetafile(env, doc.name.value.text, lookup.attributes);
            r == Reply(m.outcome, [FindAttributes(uid)] + m.effects))
    ensures Writes(r.effects) <==>
      && IsFileWithKeys(doc)
      && IsOk(env.collab.findAttributes(doc.uid.value.text).result)
      && env.settings.target == "local"
    ensures !ReachesLineage(r.effects)
  {
    match doc.entityType
    case None => Reply(Raised(MissingKey("entity_type")), [])
    case Some(entityType) =>
      if entityType == "file" then
        match doc.name
        case None => Reply(Raised(MissingKey("name")), [])
        case Some(NonText) => Reply(Raised(NotText("name")), [])
        case Some(Text(filename)) =>
          match doc.uid
          case None => Reply(Raised(MissingKey("uid")), [])
          case Some(NonText) => Reply(Raised(NotText("uid")), [])
          case Some(Text(uid)) =>
            var lookup := env.collab.findAttributes(uid);
            if IsOk(lookup.result) then
              var m := CreateMetafile(env, filename, lookup.attributes);
              var e := [FindAttributes(uid)] + m.effects;
              assert Writes(e) <==> Writes(m.effects) by {
                if Writes(m.effects) {
                  var i :| 0 <= i < |m.effects| && m.effects[i].WriteLocalFile?;
                  assert e[i + 1] == m.effects[i];
                }
              }
              assert forall i :: 1 <= i < |e| ==> e[i] == m.effects[i - 1];
              Reply(m.outcome, e)
            else
              Reply(Returned(lookup.result), [FindAttributes(uid)])
      else
        Reply(Returned(env.messages.ok), [])
  }

  /** A "file" entity whose `name` and `uid` are both strings. */
  predicate IsFileWithKeys(doc: Document)
  {
    && doc.entityType == Some("file")
    && doc.name.Some? && doc.name.value.Text?
    && doc.uid.Some? && doc.uid.value.Text?
  }

  /** `generate_transformations`: reports "ok" when the document has no
      `source_target_attribute_links` key and "undetermined" whenever it has one,
      even an empty list; the links themselves are only logged. */
  function GenerateTransformations(env: Env, doc: Document): (r: Result)
    ensures doc.links.None? ==> r == env.messages.ok
    ensures doc.links.Some? ==> r == env.messages.undetermined
    ensures env.messages.Valid() ==> (IsOk(r) <==> doc.links.None?)
  {
    if doc.links.None? then env.messages.ok else env.messages.undetermined
  }

  /** `send_metadata_to_metadata_lake`: the metadata lake is not implemented. */
  function SendMetadataToMetadataLake(env: Env): (r: Result)
    ensures r == env.messages.notImplemented
    ensures env.messages.Valid() ==> !IsOk(r)
  {
    env.messages.notImplemented
  }

  /** `send_metadata`: dispatch on the configured metadata store. */
  function SendMetadata(env: Env, metaType: string, doc: Document): (r: Reply)
    ensures r.outcome.Returned?
    ensures r.effects == (if env.settings.metadataStore == "edc" then [SendToEdc(metaType)] else [])
    ensures env.settings.metadataStore == "edc" ==> r.outcome.result == env.collab.sendToEdc(metaType, doc)
    ensures env.settings.metadataStore == "metadata_lake" ==> r.outcome.result == env.messages.notImplemented
    ensures env.settings.metadataStore != "edc" && env.settings.metadataStore != "metadata_lake" ==>
      r.outcome.result == env.messages.unknownMetadataTarget
    ensures env.messages.Valid() && env.settings.metadataStore != "edc" ==> !IsOk(r.outcome.result)
  {
    var store := env.settings.metadataStore;
    if store == "edc" then
      Reply(Returned(env.collab.sendToEdc(metaType, doc)), [SendToEdc(metaType)])
    else if store == "metadata_lake" then
      Reply(Returned(SendMetadataToMetadataLake(env)), [])
    else
      Reply(Returned(env.messages.unknownMetadataTarget), [])
  }

  /** `process_lineage_request`: generate the lineage payload, then send it. The
      generation failure is returned without sending; a send failure is returned as
      is; when both succeed the result is still "undetermined". */
  function ProcessLineageRequest(env: Env, metaType: string, doc: Document): (r: Reply)
    ensures r.outcome.Returned?
    ensures |r.effects| >= 1 && r.effects[0] == GenerateLineage(metaType)
    ensures !Writes(r.effects)
    ensures
      var generated := env.collab.generateLineage(metaType, doc);
      && (!IsOk(generated) ==> r == Reply(Returned(generated), [GenerateLineage(metaType)]))
      && (IsOk(generated) ==>
            var sent := SendMetadata(env, metaType, doc);
            && r.effects == [GenerateLineage(metaType)] + sent.effects
            && (!IsOk(sent.outcome.result) ==> r.outcome.result == sent.outcome.result)
            && (IsOk(sent.outcome.result) ==> r.outcome.result == env.messages.undetermined))
    ensures env.messages.Valid() ==> !IsOk(r.outcome.result)
  {
    var generated := env.collab.generateLineage(metaType, doc);
    if IsOk(generated) then
      var sent := SendMetadata(env, metaType, doc);
      var result := if !IsOk(sent.outcome.result) then sent.outcome.result else env.messages.undetermined;
      Reply(Returned(result), [GenerateLineage(metaType)] + sent.effects)
    else
      Reply(Returned(generated), [GenerateLineage(metaType)])
  }

  /** `process_physical_entity_and_attribute`: the router over the classification. */
  function ProcessPhysicalEntityAndAttribute(env: Env, metaType: string, doc: Document): (r: Reply)
    ensures !IsRoutedTag(metaType) ==> r == Reply(Returned(env.messages.ok), [])
    ensures metaType == PhysicalEntityTag ==> r == GenerateFileStructure(env, doc)
    ensures metaType == PhysicalEntityAssociationTag || metaType == PhysicalAttributeAssociationTag ==>
      r == ProcessLineageRequest(env, metaType, doc)
    ensures Writes(r.effects) ==> metaType == PhysicalEntityTag
    ensures ReachesLineage(r.effects) ==> metaType != PhysicalEntityTag && IsRoutedTag(metaType)
  {
    match Classify(metaType)
    case Ignored(_) => Reply(Returned(env.messages.ok), [])
    case PhysicalEntity => GenerateFileStructure(env, doc)
    case PhysicalAttributeAssociation =>
      // The transformation pass runs, but its result only reaches a debug log line:
      // the lineage result below replaces it.
      var _ := GenerateTransformations(env, doc);
      ProcessLineageRequest(env, metaType, doc)
    case PhysicalEntityAssociation => ProcessLineageRequest(env, metaType, doc)
  }

  /** How one file affects the batch: it passes, it records a non-OK result, or an
      exception escapes and ends the batch. */
  datatype Verdict = Passed | Failed(result: Result) | Faulted(fault: Fault)

  /** The body of the `process_files` loop for one document. A file passes only
      when both the schema check and the routed operation report OK; a failed schema
      check is recorded as is, and the router is then never consulted. */
  function ProcessFile(env: Env, doc: Document): (v: Verdict)
    ensures v.Failed? ==> !IsOk(v.result)
    ensures
      var check := env.collab.checkSchema(doc);
      var routed := ProcessPhysicalEntityAndAttribute(env, check.metaType, doc).outcome;
      && (!IsOk(check.result) <==> v == Failed(check.result))
      && (v.Passed? <==> IsOk(check.result) && routed.Returned? && IsOk(routed.result))
      && (v.Faulted? <==> IsOk(check.result) && routed.Raised?)
      && (v.Faulted? ==> routed == Raised(v.fault))
      && (v.Failed? && IsOk(check.result) ==> routed == Returned(v.result))
  {
    var check := env.collab.checkSchema(doc);
    if IsOk(check.result) then
      match ProcessPhysicalEntityAndAttribute(env, check.metaType, doc).outcome
      case Raised(f) => Faulted(f)
      case Returned(fr) => if IsOk(fr) then Passed else Failed(fr)
    else
      Failed(check.result)
  }

  /** The verdict of every document, in enumeration order. */
  function Verdicts(env: Env, docs: seq<Document>): (vs: seq<Verdict>)
    ensures |vs| == |docs|
    ensures forall i :: 0 <= i < |docs| ==> vs[i] == ProcessFile(env, docs[i])
  {
    seq(|docs|, i requires 0 <= i < |docs| => ProcessFile(env, docs[i]))
  }

  /** The state of `overall_result` after `process_files`; `Finished` when the loop
      ran to the end and returned it, `Aborted` when an exception escaped. */
  datatype BatchRun = Finished(state: Result) | Aborted(state: Result, fault: Fault)

  /** `process_files` started with `overall_result == overall`: a left fold in which
      every non-OK outcome overwrites the running result. */
  function ProcessFiles(env: Env, overall: Result, docs: seq<Document>): (run: BatchRun)
    ensures IsOk(run.state) ==> run.state == overall
    ensures (forall i :: 0 <= i < |docs| ==> ProcessFile(env, docs[i]).Passed?) ==> run == Finished(overall)
    decreases |docs|
  {
    if docs == [] then Finished(overall)
    else
      match ProcessFile(env, docs[0])
      case Passed => ProcessFiles(env, overall, docs[1..])
      case Failed(r) => ProcessFiles(env, r, docs[1..])
      case Faulted(f) => Aborted(overall, f)
  }

  /** `main`: a freshly constructed converter (`overall_result` is "ok") processes the directory. */
  function ConvertDirectory(env: Env, docs: seq<Document>): (run: BatchRun)
    ensures IsOk(run.state) ==> run.state == env.messages.ok
    ensures (forall i :: 0 <= i < |docs| ==> ProcessFile(env, docs[i]).Passed?) ==> run == Finished(env.messages.ok)
  {
    ProcessFiles(env, env.messages.ok, docs)
  }

  /** A batch that runs to the end reports OK exactly when no file failed. */
  lemma ConvertDirectoryOkIffNoFailure(env: Env, docs: seq<Document>)
    requires env.messages.Valid()
    requires ConvertDirectory(env, docs).Finished?
    ensures IsOk(ConvertDirectory(env, docs).state) <==> forall i :: 0 <= i < |docs| ==> !ProcessFile(env, docs[i]).Failed?
  {
    var vs := Verdicts(env, docs);
    if !NoFault(vs) {
      var k :| 0 <= k < |vs| && vs[k].Faulted?;
      FirstFault(vs, k);
      var i :| 0 <= i < |vs| && vs[i].Faulted? && NoFault(vs[..i]);
      assert vs[..i] == Verdicts(env, docs[..i]);
      ProcessFilesAbortsAtFirstFault(env, env.messages.ok, docs, i);
      assert false;
    }
    ProcessFilesIsLastFailure(env, env.messages.ok, docs);
    LastFailureIsOkIffNoFailure(env.messages.ok, vs);
  }

  /** Some verdict is the first fault. */
  lemma {:induction false} FirstFault(vs: seq<Verdict>, k: nat)
    requires k < |vs| && vs[k].Faulted?
    ensures exists i :: 0 <= i < |vs| && vs[i].Faulted? && NoFault(vs[..i])
    decreases k
  {
    if NoFault(vs[..k]) {
      assert vs[k].Faulted? && NoFault(vs[..k]);
    } else {
      var j :| 0 <= j < k && vs[..k][j].Faulted?;
      FirstFault(vs, j);
    }
  }

  /** Reference definition of "last failure wins": the result of the last `Failed`
      verdict, or `init` when there is none. */
  function LastFailure(init: Result, vs: seq<Verdict>): Result
    decreases |vs|
  {
    if vs == [] then init
    else if vs[|vs| - 1].Failed? then vs[|vs| - 1].result
    else LastFailure(init, vs[..|vs| - 1])
  }

  /** Reading one more verdict from the front extends the reference fold by one step. */
  lemma LastFailureSnoc(init: Result, vs: seq<Verdict>, i: nat)
    requires i < |vs| && NoFault(vs[..i]) && !vs[i].Faulted?
    ensures NoFault(vs[..i + 1])
    ensures LastFailure(init, vs[..i + 1]) == Absorb(LastFailure(init, vs[..i]), vs[i])
  {
    assert vs[..i + 1][..i] == vs[..i];
    assert vs[..i + 1][i] == vs[i];
  }

  /** One step of the fold: the running result after a file's verdict. */
  function Absorb(overall: Result, v: Verdict): Result
  {
    if v.Failed? then v.result else overall
  }

  predicate NoFault(vs: seq<Verdict>)
  {
    forall i :: 0 <= i < |vs| ==> !vs[i].Faulted?
  }

  lemma {:induction false} LastFailureCons(init: Result, v: Verdict, vs: seq<Verdict>)
    ensures LastFailure(init, [v] + vs) == LastFailure(Absorb(init, v), vs)
    decreases |vs|
  {
    if vs == [] {
      assert [v] + vs == [v];
      assert LastFailure(init, [v][..0]) == init;
    } else {
      var all := [v] + vs;
      assert all[..|all| - 1] == [v] + vs[..|vs| - 1];
      assert all[|all| - 1] == vs[|vs| - 1];
      LastFailureCons(init, v, vs[..|vs| - 1]);
    }
  }

  /** The fold from the front agrees with "last failure wins" read from the back. */
  lemma {:induction false} ProcessFilesIsLastFailure(env: Env, init: Result, docs: seq<Document>)
    requires NoFault(Verdicts(env, docs))
    ensures ProcessFiles(env, init, docs) == Finished(LastFailure(init, Verdicts(env, docs)))
    decreases |docs|
  {
    if docs != [] {
      var v := ProcessFile(env, docs[0]);
      var rest := Verdicts(env, docs[1..]);
      assert Verdicts(env, docs) == [v] + rest;
      assert forall i :: 0 <= i < |rest| ==> rest[i] == Verdicts(env, docs)[i + 1];
      ProcessFilesIsLastFailure(env, Absorb(init, v), docs[1..]);
      LastFailureCons(init, v, rest);
    }
  }

  /** An exception in file `i` ends the batch with the state the files before it left. */
  lemma {:induction false} ProcessFilesAbortsAtFirstFault(env: Env, init: Result, docs: seq<Document>, i: nat)
    requires i < |docs| && ProcessFile(env, docs[i]).Faulted?
    requires NoFault(Verdicts(env, docs[..i]))
    ensures ProcessFiles(env, init, docs) ==
      Aborted(LastFailure(init, Verdicts(env, docs[..i])), ProcessFile(env, docs[i]).fault)
    decreases i
  {
    if i == 0 {
      assert docs[..0] == [];
    } else {
      var v := ProcessFile(env, docs[0]);
      var tail := docs[1..];
      PrefixAfterFirst(env, docs, i);
      ProcessFilesAbortsAtFirstFault(env, Absorb(init, v), tail, i - 1);
      LastFailureCons(init, v, Verdicts(env, tail[..i - 1]));
      ProcessFilesFront(env, init, docs);
    }
  }

  /** The verdicts of the first `i` files are the first file's verdict followed by
      those of the next `i - 1`. */
  lemma PrefixAfterFirst(env: Env, docs: seq<Document>, i: nat)
    requires 0 < i < |docs| && NoFault(Verdicts(env, docs[..i]))
    ensures docs[1..][i - 1] == docs[i]
    ensures Verdicts(env, docs[..i]) == [ProcessFile(env, docs[0])] + Verdicts(env, docs[1..][..i - 1])
    ensures !ProcessFile(env, docs[0]).Faulted?
    ensures NoFault(Verdicts(env, docs[1..][..i - 1]))
  {
    var tail := docs[1..];
    var pre := Verdicts(env, docs[..i]);
    var rest := Verdicts(env, tail[..i - 1]);
    forall k | 0 <= k < |rest|
      ensures rest[k] == pre[k + 1]
    {
      assert tail[..i - 1][k] == docs[..i][k + 1];
    }
    assert pre[0] == ProcessFile(env, docs[0]);
  }

  /** A file that does not raise hands the rest of the batch its absorbed result. */
  lemma ProcessFilesFront(env: Env, init: Result, docs: seq<Document>)
    requires docs != [] && !ProcessFile(env, docs[0]).Faulted?
    ensures ProcessFiles(env, init, docs) == ProcessFiles(env, Absorb(init, ProcessFile(env, docs[0])), docs[1..])
  {
  }

  lemma {:induction false} LastFailureIsOkIffNoFailure(init: Result, vs: seq<Verdict>)
    requires IsOk(init)
    requires forall i :: 0 <= i < |vs| && vs[i].Failed? ==> !IsOk(vs[i].result)
    ensures IsOk(LastFailure(init, vs)) <==> forall i :: 0 <= i < |vs| ==> !vs[i].Failed?
    ensures IsOk(LastFailure(init, vs)) ==> LastFailure(init, vs) == init
    decreases |vs|
  {
    if vs != [] {
      var pre := vs[..|vs| - 1];
      LastFailureIsOkIffNoFailure(init, pre);
      assert forall i :: 0 <= i < |pre| ==> pre[i] == vs[i];
    }
  }

  /** The batch result is the result of the last failing file when no later file fails. */
  lemma {:induction false} LastFailureWins(init: Result, vs: seq<Verdict>, i: nat)
    requires i < |vs| && vs[i].Failed?
    requires forall j :: i < j < |vs| ==> !vs[j].Failed?
    ensures LastFailure(init, vs) == vs[i].result
    decreases |vs|
  {
    if i < |vs| - 1 {
      var pre := vs[..|vs| - 1];
      assert forall j :: i < j < |pre| ==> pre[j] == vs[j];
      LastFailureWins(init, pre, i);
    }
  }

  /** A batch whose files all pass returns the result it started from: "ok" for a
      fresh converter. */
  lemma AllFilesPassGivesOk(env: Env, docs: seq<Document>)
    requires env.messages.Valid()
    requires forall i :: 0 <= i < |docs| ==> ProcessFile(env, docs[i]).Passed?
    ensures ConvertDirectory(env, docs) == Finished(env.messages.ok)
    ensures IsOk(ConvertDirectory(env, docs).state)
  {
  }

  /** In a batch that runs to the end, a failing file whose successors all pass
      determines the batch result; a later passing file never resets it. */
  lemma BatchResultIsLastFailure(env: Env, init: Result, docs: seq<Document>, i: nat)
    requires i < |docs| && ProcessFile(env, docs[i]).Failed?
    requires forall j :: 0 <= j < |docs| ==> !ProcessFile(env, docs[j]).Faulted?
    requires forall j :: i < j < |docs| ==> ProcessFile(env, docs[j]).Passed?
    ensures ProcessFiles(env, init, docs) == Finished(ProcessFile(env, docs[i]).result)
  {
    ProcessFilesIsLastFailure(env, init, docs);
    LastFailureWins(init, Verdicts(env, docs), i);
  }

  /** Running `process_files` on `a + b` is running it on `a` and then on `b` with
      the state `a` left behind. */
  lemma {:induction false} ProcessFilesAppend(env: Env, init: Result, a: seq<Document>, b: seq<Document>)
    ensures ProcessFiles(env, init, a + b) ==
      match ProcessFiles(env, init, a)
      case Finished(s) => ProcessFiles(env, s, b)
      case Aborted(s, f) => Aborted(s, f)
    decreases |a|
  {
    if a == [] {
      assert a + b == b;
    } else {
      assert (a + b)[0] == a[0];
      assert (a + b)[1..] == a[1..] + b;
      ProcessFilesAppend(env, Absorb(init, ProcessFile(env, a[0])), a[1..], b);
    }
  }

  /** `overall_result` is reset to "ok" only by the constructor: a second
      `process_files` on the same converter after a failed one never returns OK. */
  lemma SecondRunKeepsFailure(env: Env, first: seq<Document>, second: seq<Document>)
    requires env.messages.Valid()
    requires ConvertDirectory(env, first).Finished? && !IsOk(ConvertDirectory(env, first).state)
    ensures !IsOk(ProcessFiles(env, ConvertDirectory(env, first).state, second).state)
  {
  }

  /** Any file that passes the schema check as an association fails the batch: the
      lineage pipeline never reports OK. */
  lemma AssociationFilesNeverPass(env: Env, doc: Document)
    requires env.messages.Valid()
    requires IsOk(env.collab.checkSchema(doc).result)
    requires env.collab.checkSchema(doc).metaType in {PhysicalEntityAssociationTag, PhysicalAttributeAssociationTag}
    ensures ProcessFile(env, doc).Failed?
  {
  }

  /** The `process_files` loop as a loop over the files: it keeps the running
      `overall_result` and stops at an escaping exception; its postcondition is the
      "last failure wins" reference definition. */
  method ProcessFilesLoop(env: Env, init: Result, docs: seq<Document>) returns (overall: Result, fault: Option<Fault>)
    ensures fault.None? ==> NoFault(Verdicts(env, docs)) && overall == LastFailure(init, Verdicts(env, docs))
    ensures fault.Some? ==>
      exists i :: 0 <= i < |docs| && ProcessFile(env, docs[i]) == Faulted(fault.value)
        && NoFault(Verdicts(env, docs)[..i]) && overall == LastFailure(init, Verdicts(env, docs)[..i])
    ensures ProcessFiles(env, init, docs) ==
      if fault.None? then Finished(overall) else Aborted(overall, fault.value)
  {
    var vs := Verdicts(env, docs);
    overall := init;
    fault := None;
    var i := 0;
    while i < |docs|
      invariant 0 <= i <= |docs|
      invariant NoFault(vs[..i])
      invariant overall == LastFailure(init, vs[..i])
    {
      var v := ProcessFile(env, docs[i]);
      assert v == vs[i];
      if v.Faulted? {
        fault := Some(v.fault);
        assert vs[..i] == Verdicts(env, docs[..i]);
        ProcessFilesAbortsAtFirstFault(env, init, docs, i);
        return;
      }
      if v.Failed? {
        overall := v.result;
      }
      LastFailureSnoc(init, vs, i);
      i := i + 1;
    }
    assert vs[..|docs|] == vs;
    ProcessFilesIsLastFailure(env, init, docs);
  }
}
