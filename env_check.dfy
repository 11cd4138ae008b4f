/** `validateEnvironment` of `lib/env-check.ts`. */
module EnvCheck {

  /** The process environment. */
  type Env = map<string, string>

  /** The variables a deployment must set, in the order the source lists them. */
  const RequiredEnvVars: seq<string> := ["AUTH_SECRET", "DATABASE_URL", "NEXTAUTH_URL"]

  /** `!process.env[name]`: the variable is absent or the empty string. */
  predicate IsMissing(env: Env, name: string)
  {
    name !in env || env[name] == ""
  }

  /** `names.filter(name => !process.env[name])`. */
  function MissingFrom(names: seq<string>, env: Env): (r: seq<string>)
    ensures |r| <= |names|
    ensures forall n :: n in r <==> n in names && IsMissing(env, n)
  {
    if names == [] then []
    else (if IsMissing(env, names[0]) then [names[0]] else []) + MissingFrom(names[1..], env)
  }

  /** The missing required variables. */
  function MissingVars(env: Env): (r: seq<string>)
    ensures forall n :: n in r <==> n in RequiredEnvVars && IsMissing(env, n)
  {
    MissingFrom(RequiredEnvVars, env)
  }

  /** `validateEnvironment()`: true exactly when nothing is missing. */
  function ValidateEnvironment(env: Env): (r: bool)
    ensures r <==> |MissingVars(env)| == 0
    ensures r <==> forall n :: n in RequiredEnvVars ==> n in env && env[n] != ""
  {
    var missing := MissingVars(env);
    if |missing| > 0 then
      assert missing[0] in missing;
      false
    else true
  }

  /** The missing list names the required variables in the order they are listed. */
  lemma {:induction false} MissingVarsInOrder(env: Env)
    ensures MissingVars(env) ==
      (if IsMissing(env, "AUTH_SECRET") then ["AUTH_SECRET"] else []) +
      (if IsMissing(env, "DATABASE_URL") then ["DATABASE_URL"] else []) +
      (if IsMissing(env, "NEXTAUTH_URL") then ["NEXTAUTH_URL"] else [])
  {
    var names := RequiredEnvVars;
    var a := if IsMissing(env, "AUTH_SECRET") then ["AUTH_SECRET"] else [];
    var d := if IsMissing(env, "DATABASE_URL") then ["DATABASE_URL"] else [];
    var u := if IsMissing(env, "NEXTAUTH_URL") then ["NEXTAUTH_URL"] else [];
    assert names[1..] == ["DATABASE_URL", "NEXTAUTH_URL"];
    assert names[1..][1..] == ["NEXTAUTH_URL"];
    assert names[1..][1..][1..] == [];
    assert MissingFrom(names[1..][1..], env) == u + [] == u;
    assert MissingFrom(names[1..], env) == d + u;
    assert MissingFrom(names, env) == a + (d + u);
    assert a + (d + u) == a + d + u;
  }

  /** Variables outside the required list never change the verdict. */
  lemma {:induction false} OnlyRequiredMatter(env1: Env, env2: Env)
    requires forall n :: n in RequiredEnvVars ==> (n in env1 <==> n in env2)
    requires forall n :: n in RequiredEnvVars && n in env1 ==> env1[n] == env2[n]
    ensures MissingVars(env1) == MissingVars(env2)
    ensures ValidateEnvironment(env1) == ValidateEnvironment(env2)
  {
    MissingVarsInOrder(env1);
    MissingVarsInOrder(env2);
  }
}
