/**
 * Loading the configuration from the process environment: four variables are
 * required and checked in order, the first one missing aborts loading, and
 * every other setting falls back to a default when unset or empty.
 */
module Config {
  import opened Wrappers

  type Env = map<string, string>

  const RequiredVars: seq<string> := ["PORT", "MONGODB_URI", "JWT_SECRET", "FILE_STORAGE_PATH"]

  /** A variable counts as set when it is defined and not the empty string. */
  predicate IsSet(env: Env, name: string) {
    name in env && env[name] != ""
  }

  /** The first of `names` that is not set, scanning in list order. */
  function FirstMissing(names: seq<string>, env: Env): (r: Option<string>)
    ensures r.None? <==> forall i :: 0 <= i < |names| ==> IsSet(env, names[i])
    ensures r.Some? ==> exists i :: 0 <= i < |names| && names[i] == r.value && !IsSet(env, names[i])
                                    && forall j :: 0 <= j < i ==> IsSet(env, names[j])
  {
    if names == [] then None
    else if !IsSet(env, names[0]) then Some(names[0])
    else
      var rest := FirstMissing(names[1..], env);
      assert rest.Some? ==> exists i :: 0 < i < |names| && names[i] == rest.value && !IsSet(env, names[i])
                                      && forall j :: 0 <= j < i ==> IsSet(env, names[j]) by {
        if rest.Some? {
          var k :| 0 <= k < |names| - 1 && names[1..][k] == rest.value && !IsSet(env, names[1..][k])
                   && forall j :: 0 <= j < k ==> IsSet(env, names[1..][j]);
          assert names[k + 1] == rest.value;
          forall j | 0 <= j < k + 1 ensures IsSet(env, names[j]) {
            if j > 0 { assert names[j] == names[1..][j - 1]; }
          }
        }
      }
      rest
  }

  /** `process.env[name] || fallback`. */
  function OrDefault(env: Env, name: string, fallback: string): (v: string)
    ensures IsSet(env, name) ==> v == env[name]
    ensures !IsSet(env, name) ==> v == fallback
  {
    if IsSet(env, name) then env[name] else fallback
  }

  /** The configuration object. `port` and `storageDir` are the texts given to `parseInt` and
      `path.resolve`, which are not part of this model. */
  datatype Settings = Settings(
    port: string,
    mongoUri: string,
    jwtSecret: string,
    jwtExpiresIn: string,
    storageDir: string,
    maxFileSize: string,
    defaultUsername: string,
    defaultPassword: string)

  function MissingMessage(name: string): string {
    "Missing required environment variable: " + name
  }

  /** Loading fails, naming the first missing required variable, or yields the settings with
      the optional ones defaulted. */
  function Load(env: Env): (r: Result<Settings, string>)
    ensures r.Err? <==> exists i :: 0 <= i < |RequiredVars| && !IsSet(env, RequiredVars[i])
    ensures r.Err? ==> exists i :: 0 <= i < |RequiredVars| && !IsSet(env, RequiredVars[i])
                                   && r.error == MissingMessage(RequiredVars[i])
                                   && forall j :: 0 <= j < i ==> IsSet(env, RequiredVars[j])
    ensures r.Ok? ==> && IsSet(env, "PORT") && r.value.port == env["PORT"]
                      && IsSet(env, "MONGODB_URI") && r.value.mongoUri == env["MONGODB_URI"]
                      && IsSet(env, "JWT_SECRET") && r.value.jwtSecret == env["JWT_SECRET"]
                      && IsSet(env, "FILE_STORAGE_PATH") && r.value.storageDir == env["FILE_STORAGE_PATH"]
    ensures r.Ok? ==> && r.value.jwtExpiresIn == (if IsSet(env, "JWT_EXPIRES_IN") then env["JWT_EXPIRES_IN"] else "7d")
                      && r.value.maxFileSize == (if IsSet(env, "MAX_FILE_SIZE") then env["MAX_FILE_SIZE"] else "50mb")
                      && r.value.defaultUsername == (if IsSet(env, "DEFAULT_USERNAME") then env["DEFAULT_USERNAME"] else "admin")
                      && r.value.defaultPassword == (if IsSet(env, "DEFAULT_PASSWORD") then env["DEFAULT_PASSWORD"] else "admin123")
  {
    match FirstMissing(RequiredVars, env)
    case Some(name) => Err(MissingMessage(name))
    case None =>
      assert IsSet(env, RequiredVars[0]) && IsSet(env, RequiredVars[1])
             && IsSet(env, RequiredVars[2]) && IsSet(env, RequiredVars[3]);
      Ok(Settings(
        port := OrDefault(env, "PORT", "5000"),
        mongoUri := OrDefault(env, "MONGODB_URI", "mongodb://localhost:27017/wonder-cloud-drive"),
        jwtSecret := OrDefault(env, "JWT_SECRET", "your-super-secret-jwt-key"),
        jwtExpiresIn := OrDefault(env, "JWT_EXPIRES_IN", "7d"),
        storageDir := OrDefault(env, "FILE_STORAGE_PATH", "./uploads"),
        maxFileSize := OrDefault(env, "MAX_FILE_SIZE", "50mb"),
        defaultUsername := OrDefault(env, "DEFAULT_USERNAME", "admin"),
        defaultPassword := OrDefault(env, "DEFAULT_PASSWORD", "admin123")))
  }

  /** A name that is not required is unset in an environment that holds only required names. */
  lemma UnsetWhenNotRequired(env: Env, name: string)
    requires forall v :: v in env ==> v in RequiredVars
    requires name !in RequiredVars
    ensures !IsSet(env, name)
  {
  }

  /** The required names are 4, 11, 10 and 17 characters long, so a name of any other length
      is not one of them. */
  lemma NotRequiredByLength(name: string)
    requires |name| !in {4, 10, 11, 17}
    ensures name !in RequiredVars
  {
  }

  /** With nothing optional set, the defaults are the built-in ones. */
  lemma DefaultsWhenUnset(env: Env)
    requires Load(env).Ok?
    requires forall v :: v in env ==> v in RequiredVars
    ensures Load(env).value.jwtExpiresIn == "7d" && Load(env).value.maxFileSize == "50mb"
    ensures Load(env).value.defaultUsername == "admin" && Load(env).value.defaultPassword == "admin123"
  {
    NotRequiredByLength("JWT_EXPIRES_IN");
    NotRequiredByLength("MAX_FILE_SIZE");
    NotRequiredByLength("DEFAULT_USERNAME");
    NotRequiredByLength("DEFAULT_PASSWORD");
    UnsetWhenNotRequired(env, "JWT_EXPIRES_IN");
    UnsetWhenNotRequired(env, "MAX_FILE_SIZE");
    UnsetWhenNotRequired(env, "DEFAULT_USERNAME");
    UnsetWhenNotRequired(env, "DEFAULT_PASSWORD");
  }
}
