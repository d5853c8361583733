/**
 * importOnce, identical in both importers: a per-compilation record of the
 * files already handed to Sass.  The first delivery of a file passes its
 * data through; every later one is replaced by empty contents under an
 * `already-imported:` name, so Sass includes each file at most once.
 */
module OnceCache {

  /** What readFirstFile delivers: the contents and the path they were read from. */
  datatype Loaded = Loaded(contents: string, file: string)

  /** What the importer hands back to Sass. */
  datatype Reply =
    | Pass(data: Loaded)                              // the data itself
    | AlreadyImported(contents: string, filename: string)
    | Empty                                           // `{}`: Sass carries on with its own lookup

  const AlreadyImportedPrefix := "already-imported:"

  /** The reply for `data` when the files in `delivered` were handed over before. */
  function Answer(delivered: set<string>, data: Loaded): (reply: Reply)
    ensures reply.Pass? <==> data.file !in delivered
  {
    if data.file in delivered then AlreadyImported("", AlreadyImportedPrefix + data.file) else Pass(data)
  }

  /** The files of a sequence of deliveries. */
  function Files(stream: seq<Loaded>): (files: set<string>)
    ensures forall j :: 0 <= j < |stream| ==> stream[j].file in files
    ensures forall f :: f in files ==> exists j :: 0 <= j < |stream| && stream[j].file == f
  {
    set j | 0 <= j < |stream| :: stream[j].file
  }

  /** The replies to a sequence of deliveries, each seeing the files of those before it. */
  function Replies(delivered: set<string>, stream: seq<Loaded>): (replies: seq<Reply>)
    ensures |replies| == |stream|
    decreases |stream|
  {
    if |stream| == 0 then []
    else [Answer(delivered, stream[0])] + Replies(delivered + {stream[0].file}, stream[1..])
  }

  /** The record after a sequence of deliveries. */
  function After(delivered: set<string>, stream: seq<Loaded>): set<string>
    decreases |stream|
  {
    if |stream| == 0 then delivered else After(delivered + {stream[0].file}, stream[1..])
  }

  /** The files of a non-empty sequence: those of its head and of its tail. */
  lemma FilesCons(stream: seq<Loaded>)
    requires |stream| > 0
    ensures Files(stream) == {stream[0].file} + Files(stream[1..])
  {
    forall f | f in Files(stream) ensures f in {stream[0].file} + Files(stream[1..]) {
      var j :| 0 <= j < |stream| && stream[j].file == f;
      if j > 0 {
        assert stream[1..][j - 1].file == f;
      }
    }
  }

  /** The record only grows, by exactly the files delivered. */
  lemma {:induction false} AfterGrows(delivered: set<string>, stream: seq<Loaded>)
    ensures After(delivered, stream) == delivered + Files(stream)
    decreases |stream|
  {
    if |stream| > 0 {
      AfterGrows(delivered + {stream[0].file}, stream[1..]);
      FilesCons(stream);
    }
  }

  /** The reply at position `i` is the answer given the files delivered before it. */
  lemma {:induction false} RepliesAt(delivered: set<string>, stream: seq<Loaded>, i: nat)
    requires i < |stream|
    ensures Replies(delivered, stream)[i] == Answer(delivered + Files(stream[..i]), stream[i])
    decreases i
  {
    if i > 0 {
      var d' := delivered + {stream[0].file};
      RepliesAt(d', stream[1..], i - 1);
      assert stream[1..][..i - 1] == stream[1..i];
      FilesCons(stream[..i]);
      assert stream[..i][1..] == stream[1..i];
    }
  }

  /**
   * Each file is delivered at most once: the data at position `i` passes
   * through exactly when its file was not recorded before and no earlier
   * delivery had it; otherwise its reply is the empty `already-imported:` one.
   */
  lemma OnceOnly(delivered: set<string>, stream: seq<Loaded>, i: nat)
    requires i < |stream|
    ensures var r := Replies(delivered, stream)[i];
            (r.Pass? <==> stream[i].file !in delivered && forall j :: 0 <= j < i ==> stream[j].file != stream[i].file) &&
            (r.Pass? ==> r == Pass(stream[i])) &&
            (!r.Pass? ==> r == AlreadyImported("", AlreadyImportedPrefix + stream[i].file))
  {
    RepliesAt(delivered, stream, i);
    var seen := Files(stream[..i]);
    assert stream[i].file in seen <==> exists j :: 0 <= j < i && stream[j].file == stream[i].file by {
      forall j | 0 <= j < i ensures stream[..i][j] == stream[j] { }
    }
  }

  /** `_importOnceCache`: the files delivered so far in this compilation. */
  class Cache {
    var delivered: set<string>

    /** The empty object the importer creates when there is no cache yet. */
    constructor ()
      ensures delivered == {}
    {
      delivered := {};
    }

    /** importOnce (index.js:27-38, import-once.js:26-36). */
    method ImportOnce(data: Loaded) returns (reply: Reply)
      modifies this
      ensures reply == Answer(old(delivered), data)
      ensures delivered == old(delivered) + {data.file}
    {
      if data.file in delivered {
        reply := AlreadyImported("", AlreadyImportedPrefix + data.file);
      } else {
        delivered := delivered + {data.file};
        reply := Pass(data);
      }
    }
  }
}
