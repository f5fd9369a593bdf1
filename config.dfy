/**
 * readConfig: the two required environment variables are looked up in turn
 * and written into the process-wide credentials record as they are found.
 */
module Config {
  import opened Results

  const LoginVariable: string := "STREAM_TELECOM_LOGIN"
  const PasswordVariable: string := "STREAM_TELECOM_PASSWORD"

  /** The error readConfig returns: the named variable is not set. */
  datatype ConfigError = NotSet(variable: string)

  /** The text of that error. */
  function ErrorText(e: ConfigError): string
  {
    "environment \"" + e.variable + "\" is not set"
  }

  /** The credentials after readConfig, and the error it returned. */
  datatype ConfigOutcome = ConfigOutcome(login: string, password: string, error: Option<ConfigError>)

  /**
   * What readConfig leaves behind, from an environment (os.LookupEnv over
   * `env`) and the record's previous contents.
   */
  function ReadConfigSpec(env: map<string, string>, login0: string, password0: string): (r: ConfigOutcome)
    // it succeeds exactly when both variables are present, and then holds their values
    ensures r.error == None <==> LoginVariable in env && PasswordVariable in env
    ensures r.error == None ==> r.login == env[LoginVariable] && r.password == env[PasswordVariable]
    // the login is looked up first: without it nothing is written, even if the password is missing too
    ensures LoginVariable !in env ==> r == ConfigOutcome(login0, password0, Some(NotSet(LoginVariable)))
    // a present login has already been stored when the missing password is reported
    ensures LoginVariable in env && PasswordVariable !in env ==>
              r == ConfigOutcome(env[LoginVariable], password0, Some(NotSet(PasswordVariable)))
    // every error names a variable that is absent
    ensures r.error.Some? ==> r.error.value.variable !in env
  {
    if LoginVariable !in env then
      ConfigOutcome(login0, password0, Some(NotSet(LoginVariable)))
    else if PasswordVariable !in env then
      ConfigOutcome(env[LoginVariable], password0, Some(NotSet(PasswordVariable)))
    else
      ConfigOutcome(env[LoginVariable], env[PasswordVariable], None)
  }

  /** The global `credentials` record (CredentialsConfig), updated field by field. */
  class Credentials {
    var login: string
    var password: string

    /** The Go zero value `CredentialsConfig{}`. */
    constructor ()
      ensures login == "" && password == ""
    {
      login := "";
      password := "";
    }

    method ReadConfig(env: map<string, string>) returns (err: Option<ConfigError>)
      modifies this
      ensures ConfigOutcome(login, password, err) == ReadConfigSpec(env, old(login), old(password))
    {
      if LoginVariable in env {
        login := env[LoginVariable];
      } else {
        return Some(NotSet(LoginVariable));
      }
      if PasswordVariable in env {
        password := env[PasswordVariable];
      } else {
        return Some(NotSet(PasswordVariable));
      }
      return None;
    }
  }

  /** The error text returned for a missing login. */
  lemma LoginErrorText()
    ensures ErrorText(NotSet(LoginVariable)) == "environment \"STREAM_TELECOM_LOGIN\" is not set"
  {
    assert "environment \"" + LoginVariable == "environment \"STREAM_TELECOM_LOGIN";
  }

  /** The error text returned for a missing password. */
  lemma PasswordErrorText()
    ensures ErrorText(NotSet(PasswordVariable)) == "environment \"STREAM_TELECOM_PASSWORD\" is not set"
  {
    assert "environment \"" + PasswordVariable == "environment \"STREAM_TELECOM_PASSWORD";
  }
}
