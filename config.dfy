/** src/config.ts: the module's configuration object, and its loading from and saving to a
    JSON file through the helpers of src/file.ts. `JSON.parse` and
    `JSON.stringify(config, null, 2)` are given as functions: `parse` yields None where
    `JSON.parse` throws, `stringify` yields None where `JSON.stringify` throws. */
module Config {
  import opened Paths
  import opened Errors
  import opened FsModel
  import opened Files

  type Parse<V> = string -> Option<map<string, V>>
  type Stringify<!V> = map<string, V> -> Option<string>

  /** What `loadConfig(p)` yields on the tree `t`: the parsed object, or the error raised.
      A missing file is a NotFoundError; a file that cannot be read or parsed is a
      ValidationError. */
  function Loaded<V>(t: Tree, f: Faults, p: Path, parse: Parse<V>): (r: Result<map<string, V>>)
    ensures r.Ok? <==> ReadOk(t, f, p) && parse(t[p].data).Some?
    ensures r.Err? ==> r.error.App? && r.error.err.StatusCode() == (if p in t then 400 else 404)
  {
    if p !in t then Err(App(NotFoundError("Config file not found: " + Show(p))))
    else if ReadOk(t, f, p) && parse(t[p].data).Some? then Ok(parse(t[p].data).value)
    else Err(App(ValidationError("Invalid JSON in config file: " + Show(p))))
  }

  /** The tree once `saveConfig(p)` has created the directory of `p` if it was missing
      (and the creation went through). */
  function WithConfigDir(t: Tree, f: Faults, p: Path): Tree {
    var dir := GetDirName(p);
    if dir !in t && MkdirOk(t, f, dir) then WithAncestors(t, dir) else t
  }

  /** `saveConfig(p)` goes through: the directory is there or can be created, the object
      can be serialised, and the file can be written. */
  predicate SaveOk<V>(t: Tree, f: Faults, p: Path, cfg: map<string, V>, stringify: Stringify<V>) {
    var dir := GetDirName(p);
    (dir in t || MkdirOk(t, f, dir)) && stringify(cfg).Some? && WriteOk(WithConfigDir(t, f, p), f, p)
  }

  /** The tree after `saveConfig(p)`: the directory created when it was missing, and the
      file written when everything went through. */
  function Saved<V>(t: Tree, f: Faults, p: Path, cfg: map<string, V>, stringify: Stringify<V>): Tree {
    if SaveOk(t, f, p, cfg, stringify) then WithConfigDir(t, f, p)[p := File(stringify(cfg).value)]
    else WithConfigDir(t, f, p)
  }

  /** Saving and then loading gives back the saved object, whenever `JSON.parse` reads
      back what `JSON.stringify` wrote and the written file can be read. */
  lemma SaveThenLoad<V>(t: Tree, f: Faults, p: Path, cfg: map<string, V>, parse: Parse<V>, stringify: Stringify<V>)
    requires SaveOk(t, f, p, cfg, stringify) && (ReadFileSync, p) !in f
    requires parse(stringify(cfg).value) == Some(cfg)
    ensures Loaded(Saved(t, f, p, cfg, stringify), f, p, parse) == Ok(cfg)
  {
    var s := Saved(t, f, p, cfg, stringify);
    assert s[p] == File(stringify(cfg).value);
  }

  /** Saving touches nothing but the file and the directories created for it. */
  lemma SavedFrame<V>(t: Tree, f: Faults, p: Path, cfg: map<string, V>, stringify: Stringify<V>, q: Path)
    requires q in t && q != p
    ensures q in Saved(t, f, p, cfg, stringify) && Saved(t, f, p, cfg, stringify)[q] == t[q]
  {
  }

  /** The configuration object of src/config.ts, on the filesystem `fs`. */
  class ConfigStore<V> {
    /** The module-level `config`, the empty object to begin with. */
    var config: map<string, V>
    const fs: FileSystem
    const parse: Parse<V>
    const stringify: Stringify<V>

    constructor (fs: FileSystem, parse: Parse<V>, stringify: Stringify<V>)
      ensures config == map[] && this.fs == fs && this.parse == parse && this.stringify == stringify
    {
      this.config := map[];
      this.fs := fs;
      this.parse := parse;
      this.stringify := stringify;
    }

    /** `loadConfig(configPath)`: on success the parsed object replaces the configuration;
        on failure the configuration is kept. */
    method LoadConfig(p: Path) returns (r: Outcome)
      modifies this
      ensures r.Pass? <==> Loaded(fs.tree, fs.faults, p, parse).Ok?
      ensures r.Fail? ==> r.error == Loaded(fs.tree, fs.faults, p, parse).error
      ensures config == if r.Pass? then Loaded(fs.tree, fs.faults, p, parse).value else old(config)
    {
      var present := fs.Exists(p);
      if !present {
        return Fail(App(NotFoundError("Config file not found: " + Show(p))));
      }
      var text := fs.ReadFile(p);
      if text.Err? {
        return Fail(App(ValidationError("Invalid JSON in config file: " + Show(p))));
      }
      var parsed := parse(text.value);
      if parsed.None? {
        return Fail(App(ValidationError("Invalid JSON in config file: " + Show(p))));
      }
      config := parsed.value;
      r := Pass;
    }

    /** `saveConfig(configPath)`: the directory of the file is created when missing, the
        configuration serialised and written. Every failure becomes the same
        ValidationError; a directory created before the failure stays. */
    method SaveConfig(p: Path) returns (r: Outcome)
      requires fs.Valid()
      modifies fs
      ensures fs.Valid()
      ensures r.Pass? <==> SaveOk(old(fs.tree), fs.faults, p, config, stringify)
      ensures r.Fail? ==> r == Fail(App(ValidationError("Failed to save config to file: " + Show(p))))
      ensures fs.tree == Saved(old(fs.tree), fs.faults, p, config, stringify)
      ensures config == old(config)
    {
      var dir := GetDirName(p);
      var present := fs.Exists(dir);
      if !present {
        var made := fs.CreateDirectory(dir);
        if made.Fail? {
          return Fail(App(ValidationError("Failed to save config to file: " + Show(p))));
        }
      }
      var text := stringify(config);
      if text.None? {
        return Fail(App(ValidationError("Failed to save config to file: " + Show(p))));
      }
      var written := fs.WriteFile(p, text.value);
      if written.Fail? {
        return Fail(App(ValidationError("Failed to save config to file: " + Show(p))));
      }
      r := Pass;
    }

    /** `getConfig(key)`: None stands for `undefined`. */
    method GetConfig(key: string) returns (v: Option<V>)
      ensures v.Some? <==> key in config
      ensures v.Some? ==> v.value == config[key]
    {
      v := if key in config then Some(config[key]) else None;
    }

    /** `setConfig(key, value)`. */
    method SetConfig(key: string, value: V)
      modifies this
      ensures config == old(config)[key := value]
    {
      config := config[key := value];
    }
  }
}
