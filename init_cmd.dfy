/** The checks `init` makes before it writes a fresh manifest (cmd/init.go). */
module InitCommand {
  import opened Results
  import opened Disk
  import opened ManifestTypes
  import opened Manifests

  /** The command's flags. */
  datatype InitFlags = InitFlags(
    mcVersion: string, loader: string, loaderVersion: string,
    forge: bool, fabric: bool, neoforge: bool, quilt: bool)

  /** The game version "latest" stands for. */
  const LatestMinecraft: string := "1.21.6"

  /** How many of the four loader switches are set. */
  function SwitchCount(f: InitFlags): nat {
    (if f.forge then 1 else 0) + (if f.fabric then 1 else 0)
    + (if f.neoforge then 1 else 0) + (if f.quilt then 1 else 0)
  }

  /** The game settings `init` settles on, or the first check that fails:
      more than one loader switch, then no loader at all, then no game
      version. A `--loader` value wins over the switches, "latest" stands for
      `LatestMinecraft`, and a missing loader version becomes "latest". */
  function Settings(f: InitFlags): Result<Minecraft> {
    if SwitchCount(f) > 1 then Err(MultipleLoaders)
    else
      var loader := if f.loader != "" then f.loader
                    else if f.forge then "forge" else if f.fabric then "fabric"
                    else if f.neoforge then "neoforge" else if f.quilt then "quilt" else "";
      var version := if f.mcVersion == "latest" then LatestMinecraft else f.mcVersion;
      if loader == "" then Err(LoaderRequired)
      else if version == "" then Err(MinecraftVersionRequired)
      else Ok(Minecraft(loader, if f.loaderVersion == "" then "latest" else f.loaderVersion, version))
  }

  /** The directory and game settings `init` settles on. */
  method Configure(f: InitFlags, args: seq<string>) returns (dir: string, r: Result<Minecraft>)
    requires |args| <= 1
    ensures dir == if |args| == 1 then args[0] else "."
    ensures SwitchCount(f) > 1 ==> r == Err(MultipleLoaders)
    ensures SwitchCount(f) <= 1 && f.loader == "" && SwitchCount(f) == 0 ==> r == Err(LoaderRequired)
    ensures SwitchCount(f) <= 1 && (f.loader != "" || SwitchCount(f) == 1) && (f.mcVersion == "") ==>
              r == Err(MinecraftVersionRequired)
    ensures r.Ok? <==> SwitchCount(f) <= 1 && (f.loader != "" || SwitchCount(f) == 1) && f.mcVersion != ""
    ensures r.Ok? ==> r.value.loader != "" && r.value.version != "" && r.value.loaderVersion != ""
    ensures r.Ok? && f.loader != "" ==> r.value.loader == f.loader
    ensures r.Ok? && f.loader == "" ==>
              r.value.loader == if f.forge then "forge" else if f.fabric then "fabric"
                                else if f.neoforge then "neoforge" else "quilt"
    ensures r.Ok? ==> r.value.version == if f.mcVersion == "latest" then LatestMinecraft else f.mcVersion
    ensures r.Ok? ==> r.value.loaderVersion == if f.loaderVersion == "" then "latest" else f.loaderVersion
    ensures r == Settings(f)
  {
    if |args| == 1 {
      dir := args[0];
    } else {
      dir := ".";
    }
    var mc := Minecraft(f.loader, f.loaderVersion, f.mcVersion);
    var count := 0;
    if f.forge {
      count := count + 1;
    }
    if f.fabric {
      count := count + 1;
    }
    if f.neoforge {
      count := count + 1;
    }
    if f.quilt {
      count := count + 1;
    }
    if count > 1 {
      return dir, Err(MultipleLoaders);
    }
    if mc.loader == "" {
      if f.forge {
        mc := mc.(loader := "forge");
      } else if f.fabric {
        mc := mc.(loader := "fabric");
      } else if f.neoforge {
        mc := mc.(loader := "neoforge");
      } else if f.quilt {
        mc := mc.(loader := "quilt");
      } else {
        return dir, Err(LoaderRequired);
      }
    }
    if mc.version == "latest" {
      mc := mc.(version := LatestMinecraft);
    }
    if mc.version == "" {
      return dir, Err(MinecraftVersionRequired);
    }
    // The source repeats the empty-loader check here; it can no longer fire.
    assert mc.loader != "";
    if mc.loaderVersion == "" {
      mc := mc.(loaderVersion := "latest");
    }
    return dir, Ok(mc);
  }

  /** `init`: a failed check is the answer and nothing is created; otherwise
      a new manifest with the settled settings and empty sections is created
      at `<dir>/<manifestRel>` and saved once. */
  method Init(f: InitFlags, args: seq<string>, manifestRel: string) returns (m: Manifest?, r: Result<()>)
    requires |args| <= 1
    ensures r.Err? <==> Settings(f).Err?
    ensures r.Err? ==> m == null && r.error == Settings(f).error
    ensures r.Ok? ==> m != null && fresh(m) && m.saved == [m.Doc()]
                      && m.path == PathJoin(if |args| == 1 then args[0] else ".", manifestRel)
                      && m.Doc() == Document(SchemaVersion, Settings(f).value, [], [], [])
  {
    var dir, mc := Configure(f, args);
    if mc.Err? {
      return null, Err(mc.error);
    }
    m := new Manifest.New(PathJoin(dir, manifestRel), mc.value);
    r := m.Save();
    if r.Err? {
      m := null;
    }
  }
}
