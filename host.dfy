/** The machine lib/mime-helpers.rb and v.rb run on, as far as they can see
    it: which paths exist (File.exists?), what the ParseConfig library makes
    of a file, and File.expand_path. All three are inputs; nothing here is
    computed. */
module Host {
  import opened Wrappers
  import opened ParsedConfig

  datatype Env = Env(existing: set<string>, parsed: map<string, Params>, expand: string -> string)

  /** File.exists?(path). */
  predicate Exists(env: Env, path: string) {
    path in env.existing
  }

  /** ParseConfig.new(path).params; None when ParseConfig raises, which it
      does for a file that is missing or that it cannot read. */
  function ParseFile(env: Env, path: string): (r: Option<Params>)
    ensures r.Some? ==> Exists(env, path)
  {
    if path in env.existing && path in env.parsed then Some(env.parsed[path]) else None
  }

  /** The block `cf = File.expand_path(c); File.exists?(cf) ? cf : nil`. */
  function Found(env: Env): string -> Option<string> {
    c => if Exists(env, env.expand(c)) then Some(env.expand(c)) else None
  }
}
