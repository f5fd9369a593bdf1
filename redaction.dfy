/**
 * hideCredentials: an already formatted log or error message with the
 * account's login, and then its password, replaced by fixed placeholders.
 */
module Redaction {
  import opened GoStrings

  const LoginPlaceholder: string := "<stream-telecom-login>"
  const PasswordPlaceholder: string := "<stream-telecom-password>"

  /** Login first; the password is replaced in the text that already holds the login placeholder. */
  function HideCredentials(message: string, login: string, password: string): string
  {
    Replace(Replace(message, login, LoginPlaceholder), password, PasswordPlaceholder)
  }

  /** A message that mentions neither (non-empty) secret is passed through unchanged. */
  lemma HideUnmentioned(message: string, login: string, password: string)
    requires |login| > 0 && |password| > 0
    requires !Occurs(message, login) && !Occurs(message, password)
    ensures HideCredentials(message, login, password) == message
  {
    ReplaceAbsent(message, login, LoginPlaceholder);
    ReplaceAbsent(message, password, PasswordPlaceholder);
  }

  /**
   * A message that contains the login gets the login placeholder, as long as
   * the text after the login pass does not contain the password.
   */
  lemma HideInsertsLoginPlaceholder(message: string, login: string, password: string)
    requires |login| > 0 && |password| > 0 && Occurs(message, login)
    requires !Occurs(Replace(message, login, LoginPlaceholder), password)
    ensures Occurs(HideCredentials(message, login, password), LoginPlaceholder)
  {
    ReplaceInserts(message, login, LoginPlaceholder);
    ReplaceAbsent(Replace(message, login, LoginPlaceholder), password, PasswordPlaceholder);
  }

  /**
   * A password still present after the login pass gets the password
   * placeholder: the last pass always puts its placeholder in.
   */
  lemma HideInsertsPasswordPlaceholder(message: string, login: string, password: string)
    requires |password| > 0 && Occurs(Replace(message, login, LoginPlaceholder), password)
    ensures Occurs(HideCredentials(message, login, password), PasswordPlaceholder)
  {
    ReplaceInserts(Replace(message, login, LoginPlaceholder), password, PasswordPlaceholder);
  }

  /**
   * A message that is exactly the (non-empty) login becomes the login
   * placeholder whenever the password does not occur in that placeholder.
   */
  lemma HideBareLogin(login: string, password: string)
    requires |login| > 0 && |password| > 0 && !Occurs(LoginPlaceholder, password)
    ensures HideCredentials(login, login, password) == LoginPlaceholder
  {
    ReplaceWhole(login, LoginPlaceholder);
    ReplaceAbsent(LoginPlaceholder, password, PasswordPlaceholder);
  }

  /**
   * Redaction does not remove every secret: a login that also occurs inside
   * the login placeholder survives when the whole message is that login and
   * the password does not occur in the placeholder.
   */
  lemma HideReintroducesLogin(login: string, password: string)
    requires |login| > 0 && |password| > 0
    requires Occurs(LoginPlaceholder, login) && !Occurs(LoginPlaceholder, password)
    ensures HideCredentials(login, login, password) == LoginPlaceholder
    ensures Occurs(HideCredentials(login, login, password), login)
  {
    HideBareLogin(login, password);
  }

  /** A concrete instance: login "l", password "x". */
  lemma HideLeaksShortLogin()
    ensures Occurs(HideCredentials("l", "l", "x"), "l")
  {
    assert OccursAt(LoginPlaceholder, "l", 10);
    assert 'x' !in LoginPlaceholder;
    forall i | 0 <= i <= |LoginPlaceholder| ensures !OccursAt(LoginPlaceholder, "x", i) {
      if i + 1 <= |LoginPlaceholder| {
        assert LoginPlaceholder[i..i + 1][0] == LoginPlaceholder[i];
      }
    }
    HideReintroducesLogin("l", "x");
  }

  /**
   * The password pass runs over the text the login pass produced: when the
   * password occurs in the login placeholder, the placeholder inserted for a
   * message that is the login does not survive unchanged.
   */
  lemma HidePasswordInsidePlaceholder(login: string, password: string)
    requires |login| > 0 && Occurs(LoginPlaceholder, password)
    ensures HideCredentials(login, login, password) != LoginPlaceholder
  {
    ReplaceWhole(login, LoginPlaceholder);
    ReplaceGrows(LoginPlaceholder, password, PasswordPlaceholder);
  }
}
