/** The image settings dict of trace_poc/server.py: how the POST handler
    fills it from the request, how `sanitize_environment` completes it in
    place, the tag `build_image` stores in it, and the container `run`
    creates from it. */
module Environment {

  /** The settings `sanitize_environment` fills in when they are missing. */
  const Defaults: map<string, string> := map[
    "entrypoint" := "run.sh",
    "target_repo_dir" := "/home/jovyan/work",
    "container_user" := "jovyan",
    "extra_args" := ""]

  /** `d.setdefault(key, value)`, as a function of the dict before. */
  function SetDefault(m: map<string, string>, key: string, value: string): (r: map<string, string>)
    ensures key in r && r[key] == (if key in m then m[key] else value)
    ensures r.Keys == m.Keys + {key}
    ensures forall k :: k in m ==> r[k] == m[k]
  {
    if key in m then m else m[key := value]
  }

  /** The four `setdefault` calls of `sanitize_environment`, in order: the
      result is the defaults overridden by whatever was already set. */
  function WithDefaults(m: map<string, string>): (r: map<string, string>)
    ensures forall k :: k in r <==> k in m || k in Defaults
    ensures forall k :: k in m ==> r[k] == m[k]
    ensures forall k :: k in Defaults && k !in m ==> r[k] == Defaults[k]
  {
    assert "entrypoint"[1] != "extra_args"[1];
    var m1 := SetDefault(m, "entrypoint", "run.sh");
    var m2 := SetDefault(m1, "target_repo_dir", "/home/jovyan/work");
    var m3 := SetDefault(m2, "container_user", "jovyan");
    SetDefault(m3, "extra_args", "")
  }

  /** Put another way: the defaults, overridden by what was already set. */
  lemma WithDefaultsIsMerge(m: map<string, string>)
    ensures WithDefaults(m) == Defaults + m
  {
  }

  /** Filling in defaults twice is the same as once. */
  lemma WithDefaultsIdempotent(m: map<string, string>)
    ensures WithDefaults(WithDefaults(m)) == WithDefaults(m)
  {
  }

  /** A dict that already has every setting is left as it is. */
  lemma WithDefaultsComplete(m: map<string, string>)
    requires Defaults.Keys <= m.Keys
    ensures WithDefaults(m) == m
  {
  }

  /** Lower-case ASCII letters, `string.ascii_lowercase`. */
  predicate IsLowerLetter(c: char) {
    'a' <= c <= 'z'
  }

  /** The shape of the tags `build_image` gives images: `local/` and eight
      lower-case letters. */
  predicate IsImageTag(s: string) {
    |s| == 14 && s[..6] == "local/" && forall k :: 6 <= k < 14 ==> IsLowerLetter(s[k])
  }

  /** The tag for the eight letters `random.choice` drew. */
  function Tag(letters: string): (tag: string)
    requires |letters| == 8 && forall k :: 0 <= k < 8 ==> IsLowerLetter(letters[k])
    ensures IsImageTag(tag) && tag[6..] == letters
  {
    "local/" + letters
  }

  /** The settings of one run, as the code keeps them: a dict updated in place. */
  class Image {
    var settings: map<string, string>

    constructor(initial: map<string, string>)
      ensures settings == initial
    {
      settings := initial;
    }

    /** `image.setdefault(key, value)`. */
    method SetDefaultSetting(key: string, value: string)
      modifies this
      ensures settings == SetDefault(old(settings), key, value)
    {
      if key !in settings {
        settings := settings[key := value];
      }
    }

    /** `sanitize_environment(image)`. */
    method SanitizeEnvironment()
      modifies this
      ensures settings == WithDefaults(old(settings))
    {
      SetDefaultSetting("entrypoint", "run.sh");
      SetDefaultSetting("target_repo_dir", "/home/jovyan/work");
      SetDefaultSetting("container_user", "jovyan");
      SetDefaultSetting("extra_args", "");
    }

    /** `image["tag"] = f"local/{...}"` in `build_image`. */
    method AssignTag(letters: string)
      requires |letters| == 8 && forall k :: 0 <= k < 8 ==> IsLowerLetter(letters[k])
      modifies this
      ensures settings == old(settings)["tag" := Tag(letters)]
      ensures IsImageTag(settings["tag"])
    {
      settings := settings["tag" := Tag(letters)];
    }
  }

  // ---------------------------------------------------------------------
  // From the request to the container.

  /** `request.args.get(name, default=...)`. */
  function Arg(args: map<string, string>, name: string, default: string): string {
    if name in args then args[name] else default
  }

  /** The dict the POST handler builds from the query string. */
  function ImageFromRequest(args: map<string, string>): (image: map<string, string>)
    ensures image.Keys == Defaults.Keys
    ensures image["entrypoint"] == Arg(args, "entrypoint", "run.sh")
    ensures image["container_user"] == Arg(args, "containerUser", "jovyan")
    ensures image["target_repo_dir"] == Arg(args, "targetRepoDir", "/home/jovyan/work/workspace")
    ensures image["extra_args"] == Arg(args, "extraArgs", "")
  {
    map[
      "entrypoint" := Arg(args, "entrypoint", "run.sh"),
      "container_user" := Arg(args, "containerUser", "jovyan"),
      "target_repo_dir" := Arg(args, "targetRepoDir", "/home/jovyan/work/workspace"),
      "extra_args" := Arg(args, "extraArgs", "")]
  }

  /** Every setting comes from the request, so `sanitize_environment` has
      nothing left to fill in on this path. */
  lemma RequestImageNeedsNoDefaults(args: map<string, string>)
    ensures WithDefaults(ImageFromRequest(args)) == ImageFromRequest(args)
  {
    WithDefaultsComplete(ImageFromRequest(args));
  }

  /** The container `run` creates: image, command, isolation, user, working
      directory, and where the run directory is mounted. */
  datatype Container = Container(
    image: string,
    command: string,
    networkDisabled: bool,
    user: string,
    workingDir: string,
    mountTarget: string)

  /** `cli.containers.create(...)` in `run`. */
  function RunContainer(image: map<string, string>): (c: Container)
    requires "tag" in image && "entrypoint" in image
    requires "container_user" in image && "target_repo_dir" in image
    ensures c.networkDisabled
    ensures c.image == image["tag"] && c.command == "sh " + image["entrypoint"]
    ensures c.user == image["container_user"]
    ensures c.workingDir == image["target_repo_dir"] && c.mountTarget == image["target_repo_dir"]
  {
    Container(image["tag"], "sh " + image["entrypoint"], true, image["container_user"],
              image["target_repo_dir"], image["target_repo_dir"])
  }

  /** On the path through `magic_workflow`: after `sanitize_environment` and
      the tag, the container runs what the client asked for and the defaults
      for whatever it left out, always without network. */
  lemma SanitizedContainer(m: map<string, string>, letters: string)
    requires |letters| == 8 && forall k :: 0 <= k < 8 ==> IsLowerLetter(letters[k])
    ensures var c := RunContainer(WithDefaults(m)["tag" := Tag(letters)]);
      && c.image == Tag(letters) && IsImageTag(c.image)
      && c.command == "sh " + (if "entrypoint" in m then m["entrypoint"] else "run.sh")
      && c.user == (if "container_user" in m then m["container_user"] else "jovyan")
      && c.workingDir == (if "target_repo_dir" in m then m["target_repo_dir"] else "/home/jovyan/work")
      && c.mountTarget == c.workingDir
      && c.networkDisabled
  {
  }

  /** Whatever the client sends as `networkEnabled`, the container that runs
      is the same, and it has no network. */
  lemma NetworkFlagIgnored(args: map<string, string>, flag: string, letters: string)
    requires |letters| == 8 && forall k :: 0 <= k < 8 ==> IsLowerLetter(letters[k])
    ensures var withFlag := args["networkEnabled" := flag];
      var c := RunContainer(WithDefaults(ImageFromRequest(withFlag))["tag" := Tag(letters)]);
      && c == RunContainer(WithDefaults(ImageFromRequest(args))["tag" := Tag(letters)])
      && c.networkDisabled
  {
    var withFlag := args["networkEnabled" := flag];
    assert ImageFromRequest(withFlag) == ImageFromRequest(args);
  }
}
