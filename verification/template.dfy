/** The template record (`src/template.rs`, `crates/hi_core/src/template.rs`):
    a named, versioned unit listing files to render and an optional reload
    hook. `targets` and `files` play the same role and are both rendered. */
module Templates {
  import opened Wrappers

  datatype Target = Target(target: string, content: string)

  datatype Hooks = Hooks(reload: Option<string>)

  datatype Manifest = Manifest(
    name: string,
    version: string,
    authors: seq<string>,
    description: string,
    repository: Option<string>,
    license: Option<string>,
    ignored: bool)

  datatype Template = Template(manifest: Manifest, targets: seq<Target>, files: seq<Target>, hooks: Hooks)

  /** The store key of a template. */
  function NameOf(t: Template): string {
    t.manifest.name
  }

  /** `a` and `b` agree on everything except, possibly, the `ignored` flag. */
  predicate SameButIgnored(a: Template, b: Template) {
    a.(manifest := a.manifest.(ignored := b.manifest.ignored)) == b
  }
}
