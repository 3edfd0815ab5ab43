/** The meaning of one batch of file changes given to a writable source root:
    which ids it removes, which it (re)writes, the texts it leaves behind and
    the file set it produces. */
module Changes {
  import opened Collaborators

  /** One edit of a batch: `Some(text)` writes the file, `None` removes it. */
  datatype Change = Change(id: FileId, text: Option<Text>)

  /** Some entry of `cs` writes a text for `id`. */
  predicate HasText(cs: seq<Change>, id: FileId)
  {
    exists i :: 0 <= i < |cs| && cs[i].id == id && cs[i].text.Some?
  }

  /** Some entry of `cs` removes `id`. */
  predicate HasRemoval(cs: seq<Change>, id: FileId)
  {
    exists i :: 0 <= i < |cs| && cs[i].id == id && cs[i].text.None?
  }

  /** Entry `i` is the last entry of `cs` that writes a text for `id`. */
  predicate IsLastTextFor(cs: seq<Change>, id: FileId, i: int)
  {
    && 0 <= i < |cs|
    && cs[i].id == id
    && cs[i].text.Some?
    && forall j :: i < j < |cs| && cs[j].id == id ==> cs[j].text.None?
  }

  /** The ids the batch writes (the `changed` set of `apply_changes`). */
  function ChangedIds(cs: seq<Change>): (r: set<FileId>)
    ensures forall id :: id in r <==> HasText(cs, id)
  {
    if cs == [] then {}
    else
      var init, last := cs[..|cs| - 1], cs[|cs| - 1];
      assert forall i :: 0 <= i < |init| ==> init[i] == cs[i];
      ChangedIds(init) + (if last.text.Some? then {last.id} else {})
  }

  /** The ids the batch removes (the `removed` set of `apply_changes`). */
  function RemovedIds(cs: seq<Change>): (r: set<FileId>)
    ensures forall id :: id in r <==> HasRemoval(cs, id)
  {
    if cs == [] then {}
    else
      var init, last := cs[..|cs| - 1], cs[|cs| - 1];
      assert forall i :: 0 <= i < |init| ==> init[i] == cs[i];
      RemovedIds(init) + (if last.text.None? then {last.id} else {})
  }

  /** The text store after writing every `Some` entry of `cs` in order. */
  function ApplyTexts(texts: map<FileId, Text>, cs: seq<Change>): map<FileId, Text>
  {
    if cs == [] then texts
    else
      var before, last := ApplyTexts(texts, cs[..|cs| - 1]), cs[|cs| - 1];
      match last.text
      case None => before
      case Some(t) => before[last.id := t]
  }

  /** The file set after the batch: removals first, then additions. */
  function NewFiles(files: set<FileId>, cs: seq<Change>): (r: set<FileId>)
    ensures forall id :: id in r <==> HasText(cs, id) || (id in files && !HasRemoval(cs, id))
  {
    (files - RemovedIds(cs)) + ChangedIds(cs)
  }

  /** For every id, the stored text after the batch is the text of its last
      `Some` entry; an id the batch never writes keeps its old text, or its
      absence, even when the batch removes it. */
  lemma {:induction false} ApplyTextsLastWins(texts: map<FileId, Text>, cs: seq<Change>, id: FileId)
    ensures forall i :: IsLastTextFor(cs, id, i) ==>
              id in ApplyTexts(texts, cs) && ApplyTexts(texts, cs)[id] == cs[i].text.value
    ensures !HasText(cs, id) ==>
              (id in ApplyTexts(texts, cs) <==> id in texts) &&
              (id in texts ==> ApplyTexts(texts, cs)[id] == texts[id])
  {
    if cs != [] {
      var init, last := cs[..|cs| - 1], cs[|cs| - 1];
      assert forall i :: 0 <= i < |init| ==> init[i] == cs[i];
      ApplyTextsLastWins(texts, init, id);
      forall i | IsLastTextFor(cs, id, i)
        ensures id in ApplyTexts(texts, cs) && ApplyTexts(texts, cs)[id] == cs[i].text.value
      {
        if i < |init| {
          assert IsLastTextFor(init, id, i);
        }
      }
    }
  }

  /** Every id the batch writes ends up with a stored text, and no id loses
      its text. */
  lemma ApplyTextsKeys(texts: map<FileId, Text>, cs: seq<Change>)
    ensures ApplyTexts(texts, cs).Keys == texts.Keys + ChangedIds(cs)
  {
    forall id ensures id in ApplyTexts(texts, cs) <==> id in texts || HasText(cs, id) {
      ApplyTextsLastWins(texts, cs, id);
      if HasText(cs, id) {
        LastTextExists(cs, id);
      }
    }
  }

  /** An id the batch writes has a last entry that writes it. */
  lemma {:induction false} LastTextExists(cs: seq<Change>, id: FileId)
    requires HasText(cs, id)
    ensures exists i :: IsLastTextFor(cs, id, i)
  {
    var init, last := cs[..|cs| - 1], cs[|cs| - 1];
    if last.id == id && last.text.Some? {
      assert IsLastTextFor(cs, id, |cs| - 1);
    } else {
      var k :| 0 <= k < |cs| && cs[k].id == id && cs[k].text.Some?;
      assert k < |init| && init[k] == cs[k];
      LastTextExists(init, id);
      var i :| IsLastTextFor(init, id, i);
      assert IsLastTextFor(cs, id, i);
    }
  }
}
