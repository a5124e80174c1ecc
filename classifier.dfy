/** The extension table `build_resources_index` registers with `mimetypes`
    before scanning, and the test that decides which files are scanned. */
module Classifier {
  import opened Wrappers
  import opened Paths

  /** The logical kinds of Godot text files. */
  datatype Kind = Script | Resource | Scene | Shader | Configuration | Project

  /** The nine `add_type` registrations, looked up case-sensitively. */
  function KindOf(ext: string): Option<Kind> {
    match ext
    case ".gd" => Some(Script)
    case ".cs" => Some(Script)
    case ".res" => Some(Resource)
    case ".tres" => Some(Resource)
    case ".tscn" => Some(Scene)
    case ".gdshader" => Some(Shader)
    case ".cfg" => Some(Configuration)
    case ".json" => Some(Configuration)
    case ".godot" => Some(Project)
    case _ => None
  }

  const GodotPrefix: string := "text/godot"

  /** The MIME type registered for each kind. */
  function MimeType(k: Kind): (mime: string)
    ensures StartsWith(mime, GodotPrefix)
  {
    match k
    case Script => "text/godot-script"
    case Resource => "text/godot-resource"
    case Scene => "text/godot-scene"
    case Shader => "text/godot-shader"
    case Configuration => "text/godot-configuration"
    case Project => "text/godot-project"
  }

  /** The type `mimetypes.guess_type` reports for a path, restricted to the
      registered table. The model requires that the types `mimetypes.init()`
      reads from the host never start with `text/godot`. */
  function GuessType(path: string): Option<string> {
    match KindOf(Extension(path))
    case Some(k) => Some(MimeType(k))
    case None => None
  }

  /** A file is scanned for references when its guessed type is a Godot text type. */
  predicate IsGodotText(path: string) {
    var mime := GuessType(path);
    mime.Some? && StartsWith(mime.value, GodotPrefix)
  }

  /** Every registered extension and nothing else is scanned. */
  lemma ClassifiedExactlyByTable(path: string)
    ensures IsGodotText(path) <==> KindOf(Extension(path)).Some?
  {
  }
}
