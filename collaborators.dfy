/** Types shared by the source roots and stand-ins for the collaborators whose
    code is not part of this model: the parser, the line index, the symbol
    index, the module descriptors and the file resolver.  Each stand-in only
    remembers its inputs; nothing proved about the source roots depends on
    what they compute. */
module Collaborators {

  /** A file identifier (a `u32` newtype in the source; never used arithmetically). */
  type FileId = nat

  /** The text of a source file. */
  type Text = string

  datatype Option<+T> = None | Some(value: T)

  /** The error of a lookup for a file id that the root does not know. */
  datatype UnknownFile = UnknownFile(id: FileId)

  datatype Result<+T> = Ok(value: T) | Err(error: UnknownFile)

  /** The outcome of a query that observes cancellation: either its value or
      the signal that the request was superseded. */
  datatype Cancelable<+T> = Done(value: T) | Canceled

  /** Maps files to modules for the module tree; opaque here. */
  datatype FileResolver = FileResolver(tag: nat)

  /** Line/column index of a text. */
  datatype LineIndex = LineIndex(source: Text)

  function NewLineIndex(text: Text): LineIndex
  {
    LineIndex(text)
  }

  /** A parsed, error-tolerant syntax tree. */
  datatype SyntaxFile = SyntaxFile(source: Text)

  function Parse(text: Text): SyntaxFile
  {
    SyntaxFile(text)
  }

  /** The module-level description of one parsed file. */
  datatype ModuleDescriptor = ModuleDescriptor(syntax: SyntaxFile)

  function NewModuleDescriptor(syntax: SyntaxFile): ModuleDescriptor
  {
    ModuleDescriptor(syntax)
  }

  /** The module tree of a whole source root. */
  datatype ModuleTreeDescriptor = ModuleTreeDescriptor(modules: seq<(FileId, ModuleDescriptor)>, resolver: FileResolver)

  function NewModuleTreeDescriptor(modules: seq<(FileId, ModuleDescriptor)>, resolver: FileResolver): ModuleTreeDescriptor
  {
    ModuleTreeDescriptor(modules, resolver)
  }

  /** A searchable index of the symbols of some files. */
  datatype SymbolIndex = SymbolIndex(files: seq<(FileId, SyntaxFile)>)

  function SymbolIndexForFiles(files: seq<(FileId, SyntaxFile)>): SymbolIndex
  {
    SymbolIndex(files)
  }
}
