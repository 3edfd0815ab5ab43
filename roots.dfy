/** Source roots: the writable root that the editor changes file by file, and
    the read-only root built once from a list of files (a library), together
    with the per-file data of the read-only root whose line index and syntax
    tree are computed lazily. */
module Roots {
  import opened Collaborators
  import opened Changes

  /** The file set input of the writable root's database. */
  datatype FileSet = FileSet(files: set<FileId>, resolver: FileResolver)

  /** A root whose database holds a text per file id and a file set. */
  class WritableSourceRoot {
    var texts: map<FileId, Text>
    var fileSet: FileSet

    /** Every file of the file set has a stored text. */
    ghost predicate Valid()
      reads this
    {
      fileSet.files <= texts.Keys
    }

    /** The default root: no texts, no files, the given resolver. */
    constructor (resolver: FileResolver)
      ensures Valid()
      ensures texts == map[] && fileSet == FileSet({}, resolver)
    {
      texts := map[];
      fileSet := FileSet({}, resolver);
    }

    /** Stores the text of every `Some` change, then sets the file set to the
        old files minus the removed ids plus the changed ids, and replaces the
        resolver only when a new one is given. */
    method ApplyChanges(changes: seq<Change>, fileResolver: Option<FileResolver>)
      requires Valid()
      modifies this
      ensures Valid()
      ensures texts == ApplyTexts(old(texts), changes)
      ensures fileSet.files == NewFiles(old(fileSet.files), changes)
      ensures fileSet.resolver == if fileResolver.Some? then fileResolver.value else old(fileSet.resolver)
    {
      var changed: set<FileId> := {};
      var removed: set<FileId> := {};
      var i := 0;
      while i < |changes|
        invariant 0 <= i <= |changes|
        invariant changed == ChangedIds(changes[..i])
        invariant removed == RemovedIds(changes[..i])
        invariant texts == ApplyTexts(old(texts), changes[..i])
        invariant fileSet == old(fileSet)
      {
        assert changes[..i + 1][..i] == changes[..i];
        var change := changes[i];
        match change.text {
          case None =>
            removed := removed + {change.id};
          case Some(text) =>
            texts := texts[change.id := text];
            changed := changed + {change.id};
        }
        i := i + 1;
      }
      assert changes[..i] == changes;
      var files := fileSet.files;
      var pending := removed;
      while pending != {}
        invariant pending <= removed
        invariant files == fileSet.files - (removed - pending)
        decreases pending
      {
        var id :| id in pending;
        files := files - {id};
        pending := pending - {id};
      }
      files := files + changed;
      var resolver := if fileResolver.Some? then fileResolver.value else fileSet.resolver;
      ApplyTextsKeys(old(texts), changes);
      fileSet := FileSet(files, resolver);
    }

    /** Whether `id` belongs to this root. */
    function Contains(id: FileId): (r: bool)
      reads this
      requires Valid()
      ensures r <==> id in fileSet.files
      ensures r ==> id in texts
    {
      id in fileSet.files
    }

    /** Appends the symbol index of every file, in the file set's iteration
        order, stopping at the first canceled query.  `fileSymbols` is the
        outcome of the per-file symbol query; `visited` is the order in which
        the files were taken. */
    method Symbols(acc: seq<SymbolIndex>, fileSymbols: FileId -> Cancelable<SymbolIndex>)
      returns (acc': seq<SymbolIndex>, r: Cancelable<()>, ghost visited: seq<FileId>)
      ensures |acc'| == |acc| + |visited| && acc'[..|acc|] == acc
      ensures forall k :: 0 <= k < |visited| ==>
                visited[k] in fileSet.files && fileSymbols(visited[k]) == Done(acc'[|acc| + k])
      ensures forall j, k :: 0 <= j < k < |visited| ==> visited[j] != visited[k]
      ensures r.Done? <==> forall id :: id in fileSet.files ==> id in visited
      ensures r.Done? ==> |acc'| == |acc| + |fileSet.files|
      ensures r.Canceled? ==>
                exists id :: id in fileSet.files && id !in visited && fileSymbols(id).Canceled?
    {
      acc', visited := acc, [];
      var rest := fileSet.files;
      while rest != {}
        invariant rest <= fileSet.files
        invariant forall id :: id in fileSet.files ==> (id in rest <==> id !in visited)
        invariant |acc'| == |acc| + |visited| && acc'[..|acc|] == acc
        invariant forall k :: 0 <= k < |visited| ==>
                    visited[k] in fileSet.files && fileSymbols(visited[k]) == Done(acc'[|acc| + k])
        invariant forall j, k :: 0 <= j < k < |visited| ==> visited[j] != visited[k]
        decreases rest
      {
        var id :| id in rest;
        var symbols := fileSymbols(id);
        if symbols.Canceled? {
          r := Canceled;
          return;
        }
        acc', visited := acc' + [symbols.value], visited + [id];
        rest := rest - {id};
      }
      r := Done(());
      DistinctCoverSize(visited, fileSet.files);
    }
  }

  /** A sequence without repeats that holds exactly the ids of a set is as
      long as the set is large. */
  lemma {:induction false} DistinctCoverSize(s: seq<FileId>, ids: set<FileId>)
    requires forall j, k :: 0 <= j < k < |s| ==> s[j] != s[k]
    requires forall id :: id in ids <==> id in s
    ensures |s| == |ids|
  {
    if s == [] {
      assert ids == {};
    } else {
      var init, last := s[..|s| - 1], s[|s| - 1];
      forall id ensures id in ids - {last} <==> id in init {
        if id in ids - {last} {
          var k :| 0 <= k < |s| && s[k] == id;
          assert k < |init| && init[k] == id;
        }
      }
      DistinctCoverSize(init, ids - {last});
    }
  }

  /** The text of one file of a read-only root with its lazily computed line
      index and syntax tree. */
  class FileData {
    const text: Text
    var lines: Option<LineIndex>
    var syntax: Option<SyntaxFile>

    /** A filled cell holds what its initializer computes from the text. */
    ghost predicate Valid()
      reads this
    {
      && (lines.Some? ==> lines.value == NewLineIndex(text))
      && (syntax.Some? ==> syntax.value == Parse(text))
    }

    constructor (text: Text)
      ensures Valid()
      ensures this.text == text && lines == None && syntax == None
    {
      this.text := text;
      lines := None;
      syntax := None;
    }

    /** The line index, computed on the first call and returned from the cell
        on every later call. */
    method Lines() returns (index: LineIndex)
      requires Valid()
      modifies this
      ensures Valid()
      ensures index == NewLineIndex(text) && lines == Some(index)
      ensures old(lines).Some? ==> lines == old(lines)
      ensures syntax == old(syntax)
    {
      if lines.None? {
        lines := Some(NewLineIndex(text));
      }
      index := lines.value;
    }

    /** The syntax tree, parsed on the first call and returned from the cell
        on every later call. */
    method Syntax() returns (file: SyntaxFile)
      requires Valid()
      modifies this
      ensures Valid()
      ensures file == Parse(text) && syntax == Some(file)
      ensures old(syntax).Some? ==> syntax == old(syntax)
      ensures lines == old(lines)
    {
      if syntax.None? {
        syntax := Some(Parse(text));
      }
      file := syntax.value;
    }
  }

  /** The batch that writes every `(id, text)` pair of `files` in order. */
  function AsChanges(files: seq<(FileId, Text)>): seq<Change>
  {
    seq(|files|, i requires 0 <= i < |files| => Change(files[i].0, Some(files[i].1)))
  }

  /** Read as a batch, a file list writes every listed id and removes none. */
  lemma FileListIsWriteOnlyBatch(files: seq<(FileId, Text)>)
    ensures ChangedIds(AsChanges(files)) == set i | 0 <= i < |files| :: files[i].0
    ensures RemovedIds(AsChanges(files)) == {}
  {
    var cs := AsChanges(files);
    forall id | id in ChangedIds(cs) ensures id in set i | 0 <= i < |files| :: files[i].0 {
      var i :| 0 <= i < |cs| && cs[i].id == id && cs[i].text.Some?;
      assert files[i].0 == id;
    }
    forall id | id in set i | 0 <= i < |files| :: files[i].0 ensures id in ChangedIds(cs) {
      var i :| 0 <= i < |files| && files[i].0 == id;
      assert cs[i].id == id && cs[i].text.Some?;
    }
  }

  /** The text per id of a list of files collected into a map: a later entry
      for the same id replaces an earlier one. */
  function FileTexts(files: seq<(FileId, Text)>): map<FileId, Text>
  {
    ApplyTexts(map[], AsChanges(files))
  }

  /** Every id listed in `files` has a text, no other id has one, and the text
      is that of the last entry listing the id. */
  lemma FileTextsLastWins(files: seq<(FileId, Text)>, id: FileId)
    ensures id in FileTexts(files) <==> exists i :: 0 <= i < |files| && files[i].0 == id
    ensures forall i :: 0 <= i < |files| && files[i].0 == id &&
                        (forall j :: i < j < |files| ==> files[j].0 != id) ==>
              id in FileTexts(files) && FileTexts(files)[id] == files[i].1
  {
    var cs := AsChanges(files);
    ApplyTextsLastWins(map[], cs, id);
    ApplyTextsKeys(map[], cs);
    if exists i :: 0 <= i < |files| && files[i].0 == id {
      var i :| 0 <= i < |files| && files[i].0 == id;
      assert cs[i].id == id && cs[i].text.Some?;
    }
    forall i | 0 <= i < |files| && files[i].0 == id && (forall j :: i < j < |files| ==> files[j].0 != id)
      ensures id in FileTexts(files) && FileTexts(files)[id] == files[i].1
    {
      assert IsLastTextFor(cs, id, i);
    }
  }

  /** One entry of the read-only constructor's `modules` vector: a file id,
      its syntax tree and the module descriptor built from that tree. */
  type Module = (FileId, SyntaxFile, ModuleDescriptor)

  /** Every listed file parsed once, with its module descriptor, in list order. */
  function Modules(files: seq<(FileId, Text)>): seq<Module>
  {
    seq(|files|, i requires 0 <= i < |files| =>
      var syntax := Parse(files[i].1);
      (files[i].0, syntax, NewModuleDescriptor(syntax)))
  }

  /** The `(id, descriptor)` pairs the module tree is built from. */
  function ModuleDescriptors(modules: seq<Module>): seq<(FileId, ModuleDescriptor)>
  {
    seq(|modules|, i requires 0 <= i < |modules| => (modules[i].0, modules[i].2))
  }

  /** The `(id, syntax tree)` pairs the symbol index is built from. */
  function ParsedFiles(modules: seq<Module>): seq<(FileId, SyntaxFile)>
  {
    seq(|modules|, i requires 0 <= i < |modules| => (modules[i].0, modules[i].1))
  }

  /** The module tree and the symbol index see the same files in the same
      order, and entry `i` of the module tree describes exactly the tree that
      entry `i` of the symbol index receives, which is the parse of the
      `i`-th listed text. */
  lemma ModulesShareParse(files: seq<(FileId, Text)>)
    ensures |ModuleDescriptors(Modules(files))| == |ParsedFiles(Modules(files))| == |files|
    ensures forall i :: 0 <= i < |files| ==>
              && ParsedFiles(Modules(files))[i] == (files[i].0, Parse(files[i].1))
              && ModuleDescriptors(Modules(files))[i]
                 == (files[i].0, NewModuleDescriptor(ParsedFiles(Modules(files))[i].1))
  {
  }

  /** A root built once from a list of files; only the lazy cells of its
      file data change afterwards. */
  class ReadonlySourceRoot {
    const symbolIndex: SymbolIndex
    const fileMap: map<FileId, FileData>
    const moduleTree: ModuleTreeDescriptor

    /** Every file data is valid, and each id owns its own file data. */
    ghost predicate Valid()
      reads this, fileMap.Values
    {
      && (forall id :: id in fileMap ==> fileMap[id].Valid())
      && (forall x, y :: x in fileMap && y in fileMap && x != y ==> fileMap[x] != fileMap[y])
    }

    /** Parses every file, builds the module tree and the symbol index from
        all of them, and keeps one fresh, empty-celled file data per id;
        different ids hold different file data. */
    constructor (files: seq<(FileId, Text)>, fileResolver: FileResolver)
      ensures Valid()
      ensures fileMap.Keys == FileTexts(files).Keys
      ensures forall id :: id in fileMap ==>
                && fileMap[id].text == FileTexts(files)[id]
                && fresh(fileMap[id])
                && fileMap[id].lines.None? && fileMap[id].syntax.None?
      ensures forall x, y :: x in fileMap && y in fileMap && x != y ==> fileMap[x] != fileMap[y]
      ensures moduleTree == NewModuleTreeDescriptor(ModuleDescriptors(Modules(files)), fileResolver)
      ensures symbolIndex == SymbolIndexForFiles(ParsedFiles(Modules(files)))
    {
      var m: map<FileId, FileData> := map[];
      var i := 0;
      while i < |files|
        invariant 0 <= i <= |files|
        invariant m.Keys == FileTexts(files[..i]).Keys
        invariant forall id :: id in m ==>
                    && m[id].text == FileTexts(files[..i])[id]
                    && fresh(m[id])
                    && m[id].lines.None? && m[id].syntax.None?
        invariant forall x, y :: x in m && y in m && x != y ==> m[x] != m[y]
      {
        assert AsChanges(files[..i + 1])[..i] == AsChanges(files[..i]);
        var data := new FileData(files[i].1);
        m := m[files[i].0 := data];
        i := i + 1;
      }
      assert files[..i] == files;
      var modules := Modules(files);
      moduleTree := NewModuleTreeDescriptor(ModuleDescriptors(modules), fileResolver);
      symbolIndex := SymbolIndexForFiles(ParsedFiles(modules));
      fileMap := m;
    }

    /** The file data of `id`; an unknown id is an error. */
    function Data(id: FileId): (r: Result<FileData>)
      ensures r.Ok? <==> id in fileMap
      ensures r.Ok? ==> r.value == fileMap[id]
      ensures r.Err? ==> r.error == UnknownFile(id)
    {
      if id in fileMap then Ok(fileMap[id]) else Err(UnknownFile(id))
    }

    /** Whether `id` belongs to this root: exactly the ids `Data` accepts. */
    function Contains(id: FileId): (r: bool)
      ensures r <==> id in fileMap
      ensures r <==> Data(id).Ok?
    {
      id in fileMap
    }

    /** The module tree built at construction; never canceled. */
    function ModuleTree(): (r: Cancelable<ModuleTreeDescriptor>)
      ensures r == Done(moduleTree)
    {
      Done(moduleTree)
    }

    /** The line index of a known file, filling its cell on first use; a
        filled cell, the file's syntax cell and every other file's cells are
        left as they were. */
    method Lines(id: FileId) returns (r: Result<LineIndex>)
      requires Valid()
      modifies if id in fileMap then {fileMap[id]} else {}
      ensures Valid()
      ensures r.Ok? <==> id in fileMap
      ensures r.Ok? ==> r.value == NewLineIndex(fileMap[id].text) && fileMap[id].lines == Some(r.value)
      ensures r.Err? ==> r.error == UnknownFile(id)
      ensures id in fileMap && old(fileMap[id].lines).Some? ==> fileMap[id].lines == old(fileMap[id].lines)
      ensures id in fileMap ==> fileMap[id].syntax == old(fileMap[id].syntax)
      ensures forall x :: x in fileMap && x != id ==>
                fileMap[x].lines == old(fileMap[x].lines) && fileMap[x].syntax == old(fileMap[x].syntax)
    {
      match Data(id)
      case Err(e) =>
        r := Err(e);
      case Ok(data) =>
        var index := data.Lines();
        r := Ok(index);
    }

    /** The syntax tree of a known file, filling its cell on first use; a
        filled cell, the file's lines cell and every other file's cells are
        left as they were. */
    method Syntax(id: FileId) returns (r: Result<SyntaxFile>)
      requires Valid()
      modifies if id in fileMap then {fileMap[id]} else {}
      ensures Valid()
      ensures r.Ok? <==> id in fileMap
      ensures r.Ok? ==> r.value == Parse(fileMap[id].text) && fileMap[id].syntax == Some(r.value)
      ensures r.Err? ==> r.error == UnknownFile(id)
      ensures id in fileMap && old(fileMap[id].syntax).Some? ==> fileMap[id].syntax == old(fileMap[id].syntax)
      ensures id in fileMap ==> fileMap[id].lines == old(fileMap[id].lines)
      ensures forall x :: x in fileMap && x != id ==>
                fileMap[x].lines == old(fileMap[x].lines) && fileMap[x].syntax == old(fileMap[x].syntax)
    {
      match Data(id)
      case Err(e) =>
        r := Err(e);
      case Ok(data) =>
        var file := data.Syntax();
        r := Ok(file);
    }

    /** Appends the single symbol index of the whole root. */
    method Symbols(acc: seq<SymbolIndex>) returns (acc': seq<SymbolIndex>, r: Cancelable<()>)
      ensures acc' == acc + [symbolIndex]
      ensures r == Done(())
    {
      acc' := acc + [symbolIndex];
      r := Done(());
    }
  }
}
