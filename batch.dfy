/**
 * Delivery of rendered images to the connected editor clients. For each file name in
 * order, a file that exists and decodes becomes one batch item (its original bytes,
 * its size, its alpha bounds, its name); any other file is skipped. A non-empty
 * batch is sent as one "render_batch" message when at least one editor client is
 * connected. `handle_render_batch` (the HTTP route) and `send_images_to_photoshop`
 * (the direct call after a render) run the same per-file fold.
 */
module Batch {
  import opened Wrappers
  import opened Text
  import opened Pixels

  type Byte = b: int | 0 <= b < 256
  type Bytes = seq<Byte>

  /** The temp directory: file name to file contents. A name that is absent is a missing file. */
  type FileSystem = map<string, Bytes>

  /** Image decoding followed by `convert("RGBA")` and `getchannel("A")`; None when decoding raises. */
  type Decoder = Bytes -> Option<Image>

  /** An editor client connection. */
  type SessionId = string

  const RenderBatch: string := "render_batch"

  datatype Size = Size(width: nat, height: nat)

  /** One entry of the payload: `image`, `size`, `sourceBounds`, `filename`. */
  datatype BatchItem = BatchItem(image: Bytes, size: Size, sourceBounds: Box, filename: string)

  /** One `send_message(users, kind, payload)` call. */
  datatype Message = Message(recipients: set<SessionId>, kind: string, payload: seq<BatchItem>)

  /** The item built for one file name, or None when the file is missing or fails to decode. */
  function ProcessFile(fs: FileSystem, decode: Decoder, name: string): (r: Option<BatchItem>)
    ensures r.Some? <==> Readable(fs, decode, name)
    ensures r.Some? ==> r.value.filename == name && Describes(fs, decode, r.value)
  {
    if name !in fs then None
    else
      match decode(fs[name])
      case None => None
      case Some(alpha) =>
        Some(BatchItem(fs[name], Size(alpha.width, alpha.height), SourceBounds(alpha), name))
  }

  /** The file exists and decodes. */
  predicate Readable(fs: FileSystem, decode: Decoder, name: string) {
    name in fs && decode(fs[name]).Some?
  }

  /**
   * item describes a file of fs faithfully: its bytes are the file's bytes unchanged,
   * they decode, and size and bounds are those of the decoded image.
   */
  predicate Describes(fs: FileSystem, decode: Decoder, item: BatchItem) {
    && item.filename in fs
    && item.image == fs[item.filename]
    && decode(item.image).Some?
    && item.size == Size(decode(item.image).value.width, decode(item.image).value.height)
    && item.sourceBounds == SourceBounds(decode(item.image).value)
  }

  /** The names that survive, in input order with repetitions kept. */
  function Survivors(fs: FileSystem, decode: Decoder, names: seq<string>): (kept: seq<string>)
    ensures |kept| <= |names|
    ensures forall n :: n in kept ==> n in names && Readable(fs, decode, n)
    ensures forall n :: Readable(fs, decode, n) ==> multiset(kept)[n] == multiset(names)[n]
  {
    if |names| == 0 then []
    else
      var init, last := names[..|names| - 1], names[|names| - 1];
      assert names == init + [last];
      Survivors(fs, decode, init) + (if Readable(fs, decode, last) then [last] else [])
  }

  /** How many names are skipped (missing or undecodable). */
  function SkippedCount(fs: FileSystem, decode: Decoder, names: seq<string>): nat
  {
    if |names| == 0 then 0
    else
      SkippedCount(fs, decode, names[..|names| - 1])
        + (if Readable(fs, decode, names[|names| - 1]) then 0 else 1)
  }

  /** The batch the loop builds: the fold of ProcessFile over the names, left to right. */
  function Assemble(fs: FileSystem, decode: Decoder, names: seq<string>): (batch: seq<BatchItem>)
    ensures |batch| <= |names|
    ensures forall k :: 0 <= k < |batch| ==> Describes(fs, decode, batch[k]) && batch[k].filename in names
  {
    if |names| == 0 then []
    else
      var init := names[..|names| - 1];
      var prev := Assemble(fs, decode, init);
      assert forall k :: 0 <= k < |prev| ==> prev[k].filename in names by {
        assert forall n :: n in init ==> n in names;
      }
      match ProcessFile(fs, decode, names[|names| - 1])
      case None => prev
      case Some(item) => prev + [item]
  }

  /**
   * The batch holds exactly one item per surviving name, in input order, and the
   * item for name n is built from n's bytes; the skipped names are the rest.
   */
  lemma {:induction false} AssembleMatchesSurvivors(fs: FileSystem, decode: Decoder, names: seq<string>)
    ensures var batch, kept := Assemble(fs, decode, names), Survivors(fs, decode, names);
      && |batch| == |kept|
      && |batch| + SkippedCount(fs, decode, names) == |names|
      && forall k :: 0 <= k < |batch| ==> batch[k].filename == kept[k]
  {
    if |names| > 0 {
      var init, last := names[..|names| - 1], names[|names| - 1];
      AssembleMatchesSurvivors(fs, decode, init);
      var batch, kept := Assemble(fs, decode, init), Survivors(fs, decode, init);
      if Readable(fs, decode, last) {
        assert Assemble(fs, decode, names) == batch + [ProcessFile(fs, decode, last).value];
        assert Survivors(fs, decode, names) == kept + [last];
      } else {
        assert Assemble(fs, decode, names) == batch;
        assert Survivors(fs, decode, names) == kept;
      }
    }
  }

  /** Files are processed independently: the batch for a + b is the batch for a followed by that for b. */
  lemma {:induction false} AssembleAppend(fs: FileSystem, decode: Decoder, a: seq<string>, b: seq<string>)
    ensures Assemble(fs, decode, a + b) == Assemble(fs, decode, a) + Assemble(fs, decode, b)
    decreases |b|
  {
    if |b| == 0 {
      assert a + b == a;
    } else {
      var b' := b[..|b| - 1];
      assert (a + b)[..|a + b| - 1] == a + b';
      assert (a + b)[|a + b| - 1] == b[|b| - 1];
      AssembleAppend(fs, decode, a, b');
    }
  }

  /** The batch for a single name: one item if it is readable, none otherwise. */
  lemma AssembleSingle(fs: FileSystem, decode: Decoder, name: string)
    ensures Readable(fs, decode, name) ==> Assemble(fs, decode, [name]) == [ProcessFile(fs, decode, name).value]
    ensures !Readable(fs, decode, name) ==> Assemble(fs, decode, [name]) == []
  {
    assert [name][..0] == [];
  }

  /** The messages one send attempt adds to the log: at most one, and only with both a batch and a recipient. */
  function Broadcast(batch: seq<BatchItem>, users: set<SessionId>): (sent: seq<Message>)
    ensures |sent| <= 1
    ensures |sent| == 1 <==> batch != [] && users != {}
    ensures |sent| == 1 ==> sent[0] == Message(users, RenderBatch, batch)
  {
    if batch != [] && users != {} then [Message(users, RenderBatch, batch)] else []
  }

  /** The connection manager: the connected editor clients and a log of every message sent. */
  class WsManager {
    var photoshopUsers: set<SessionId>
    ghost var sent: seq<Message>

    constructor (users: set<SessionId>)
      ensures photoshopUsers == users && sent == []
    {
      photoshopUsers := users;
      sent := [];
    }

    /** `send_message(users, kind, payload)`, recorded as one log entry. */
    method SendMessage(users: set<SessionId>, kind: string, payload: seq<BatchItem>)
      modifies this`sent
      ensures sent == old(sent) + [Message(users, kind, payload)]
    {
      sent := sent + [Message(users, kind, payload)];
    }
  }

  /** The per-file loop shared by both entry points: skip what is missing or fails, keep the rest in order. */
  method CollectBatch(fs: FileSystem, decode: Decoder, names: seq<string>) returns (batch: seq<BatchItem>)
    ensures batch == Assemble(fs, decode, names)
  {
    batch := [];
    for i := 0 to |names|
      invariant batch == Assemble(fs, decode, names[..i])
    {
      assert names[..i + 1][..i] == names[..i];
      var name := names[i];
      if name !in fs {
        continue;
      }
      var content := fs[name];
      var decoded := decode(content);
      if decoded.None? {
        continue;
      }
      var alpha := decoded.value;
      var bounds := SourceBounds(alpha);
      batch := batch + [BatchItem(content, Size(alpha.width, alpha.height), bounds, name)];
    }
    assert names[..|names|] == names;
  }

  /** `send_images_to_photoshop(filenames, temp_dir)`: build the batch and send it at most once. */
  method SendImagesToPhotoshop(ws: WsManager, fs: FileSystem, decode: Decoder, filenames: seq<string>)
    modifies ws`sent
    ensures ws.sent == old(ws.sent) + Broadcast(Assemble(fs, decode, filenames), ws.photoshopUsers)
  {
    var batch := CollectBatch(fs, decode, filenames);
    if batch != [] && ws.photoshopUsers != {} {
      ws.SendMessage(ws.photoshopUsers, RenderBatch, batch);
    }
  }

  /** The query string of a `/ps/renderbatch` request; absent parameters are None. */
  datatype Query = Query(cmUID: Option<string>, filenames: Option<string>)

  datatype Response =
    | NoFilenames                          // status 400, "No filenames provided"
    | BatchSent(requested: nat, cmUID: string)  // status 200, "Batch of <requested> images sent ... <cmUID>"

  /** The list of names the route works on: the `filenames` parameter split on commas. */
  function RequestedNames(q: Query): (names: seq<string>)
    ensures |names| >= 1
  {
    Split(q.filenames.GetOr(""), ',')
  }

  /**
   * `handle_render_batch`: a first name that is empty (in particular a missing or empty
   * `filenames` parameter) is refused with 400 before any file is read; otherwise the
   * batch is built and sent at most once, and the response reports how many names were
   * requested (missing ones included) and echoes `cmUID`. The message never carries `cmUID`.
   */
  method HandleRenderBatch(ws: WsManager, fs: FileSystem, decode: Decoder, q: Query) returns (resp: Response)
    modifies ws`sent
    ensures RequestedNames(q)[0] == "" ==> resp == NoFilenames && ws.sent == old(ws.sent)
    ensures RequestedNames(q)[0] != "" ==>
      && resp == BatchSent(|RequestedNames(q)|, q.cmUID.GetOr(""))
      && ws.sent == old(ws.sent) + Broadcast(Assemble(fs, decode, RequestedNames(q)), ws.photoshopUsers)
  {
    var cmUID := q.cmUID.GetOr("");
    var filenames := Split(q.filenames.GetOr(""), ',');
    if |filenames| == 0 || filenames[0] == "" {
      return NoFilenames;
    }
    var batch := CollectBatch(fs, decode, filenames);
    if batch != [] {
      if ws.photoshopUsers != {} {
        ws.SendMessage(ws.photoshopUsers, RenderBatch, batch);
      }
    }
    return BatchSent(|filenames|, cmUID);
  }

  /** A missing or empty `filenames` parameter is refused. */
  lemma EmptyParameterRefused(q: Query)
    requires q.filenames == None || q.filenames == Some("")
    ensures RequestedNames(q) == [""]
  {
  }

  /** A parameter that starts with a comma is refused too: its first name is empty. */
  lemma LeadingCommaRefused(q: Query)
    requires q.filenames.Some? && |q.filenames.value| > 0 && q.filenames.value[0] == ','
    ensures RequestedNames(q)[0] == ""
  {
    var s := q.filenames.value;
    assert s == [s[0]] + s[1..];
  }

  /** The scenario's parameter names three files. */
  lemma ScenarioNames()
    ensures Split("a.png,missing.png,b.png", ',') == ["a.png", "missing.png", "b.png"]
  {
    var names := ["a.png", "missing.png", "b.png"];
    assert Join(names, ',') == "a.png" + [','] + ("missing.png" + [','] + "b.png");
    assert "a.png" + [','] + ("missing.png" + [','] + "b.png") == "a.png,missing.png,b.png";
    SplitJoin(names, ',');
  }

  /** Of the three names only the readable first and last become items, in order. */
  lemma ScenarioBatch(fs: FileSystem, decode: Decoder, a: Bytes, b: Bytes)
    requires fs == map["a.png" := a, "b.png" := b]
    requires decode(a).Some? && decode(b).Some?
    ensures Assemble(fs, decode, ["a.png", "missing.png", "b.png"])
         == [ProcessFile(fs, decode, "a.png").value, ProcessFile(fs, decode, "b.png").value]
  {
    assert ["a.png", "missing.png", "b.png"] == ["a.png"] + ["missing.png"] + ["b.png"];
    assert "missing.png" !in fs;
    AssembleAppend(fs, decode, ["a.png"] + ["missing.png"], ["b.png"]);
    AssembleAppend(fs, decode, ["a.png"], ["missing.png"]);
    AssembleSingle(fs, decode, "a.png");
    AssembleSingle(fs, decode, "missing.png");
    AssembleSingle(fs, decode, "b.png");
  }

  /**
   * Three names of which the middle one is missing, two connected clients: the
   * response reports three names and cmUID "X1"; one message goes out, carrying the
   * two readable files in order.
   */
  lemma MissingFileScenario(fs: FileSystem, decode: Decoder, a: Bytes, b: Bytes, users: set<SessionId>)
    requires fs == map["a.png" := a, "b.png" := b]
    requires decode(a).Some? && decode(b).Some?
    requires |users| == 2
    ensures var q := Query(Some("X1"), Some("a.png,missing.png,b.png"));
      var batch := Assemble(fs, decode, RequestedNames(q));
      && RequestedNames(q) == ["a.png", "missing.png", "b.png"]
      && batch == [ProcessFile(fs, decode, "a.png").value, ProcessFile(fs, decode, "b.png").value]
      && Broadcast(batch, users) == [Message(users, RenderBatch, batch)]
  {
    ScenarioNames();
    ScenarioBatch(fs, decode, a, b);
    assert users != {};
  }
}
