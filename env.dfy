/** src/env.ts: reading the process environment, modelled as a map from variable
    names to values that the functions receive and never change. A variable is unset
    exactly when its name is not in the map; the empty string is a value like any other. */
module Env {
  import opened Errors

  type Environment = map<string, string>

  /** `getEnv(key, defaultValue?)`. */
  function GetEnv(env: Environment, key: string, defaultValue: Option<string>): (r: Result<string>)
    ensures key in env ==> r == Ok(env[key])
    ensures key !in env && defaultValue.Some? ==> r == Ok(defaultValue.value)
    ensures r.Err? <==> key !in env && defaultValue.None?
    ensures r.Err? ==> r.error.App? && r.error.err.kind == NotFound && r.error.err.StatusCode() == 404
  {
    if key !in env then
      if defaultValue.Some? then Ok(defaultValue.value)
      else Err(App(NotFoundError("Environment variable " + key + " is not set")))
    else
      Ok(env[key])
  }

  /** `validateEnv(key)`. */
  function ValidateEnv(env: Environment, key: string): (r: Outcome)
    ensures r.Fail? <==> key !in env
    ensures r.Fail? ==> r.error.App? && r.error.err.kind == Validation && r.error.err.StatusCode() == 400
  {
    if key !in env then Fail(App(ValidationError("Environment variable " + key + " is required")))
    else Pass
  }

  /** The two functions agree on what "set" means: validation passes exactly when a
      lookup without a default returns a value, and then a lookup with any default
      returns that same value. */
  lemma {:induction false} ValidateAgreesWithGetEnv(env: Environment, key: string, d: string)
    ensures ValidateEnv(env, key).Pass? <==> GetEnv(env, key, None).Ok?
    ensures ValidateEnv(env, key).Pass? ==> GetEnv(env, key, Some(d)) == GetEnv(env, key, None)
    ensures ValidateEnv(env, key).Fail? ==> GetEnv(env, key, Some(d)) == Ok(d)
  {
  }

  /** A variable set to the empty string counts as set: its value is returned and
      not the default. */
  lemma {:induction false} EmptyStringIsSet(env: Environment, key: string, d: Option<string>)
    requires key in env && env[key] == ""
    ensures GetEnv(env, key, d) == Ok("") && ValidateEnv(env, key) == Pass
  {
  }
}
