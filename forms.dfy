/**
 * The WTForms validators the handlers rely on, as predicates over the submitted
 * field values. `validate_on_submit` also needs the request to be a submission
 * (a POST), which is the `post` flag.
 */
module Forms {
  import opened Tags

  /** `DataRequired`: the field is present and not only whitespace. */
  predicate DataRequired(s: string) {
    !AllSpace(s)
  }

  /** `DataRequired` passes exactly when the stripped field is not empty. */
  lemma DataRequiredStrips(s: string)
    ensures DataRequired(s) <==> Strip(s) != []
  {
    StripEmptyIff(s);
  }

  /** `Length(min = n)`: the field holds at least `n` characters. */
  predicate MinLength(s: string, n: nat) {
    |s| >= n
  }

  /** `LoginForm` and `RegisterForm`: a username of three or more characters and a password. */
  predicate CredentialsFormValid(post: bool, username: string, password: string) {
    post && DataRequired(username) && MinLength(username, 3) && DataRequired(password)
  }

  /** The credentials form accepts a submission exactly when the stripped username and
      password are not empty and the username has at least three characters. */
  lemma CredentialsFormStrips(post: bool, username: string, password: string)
    ensures CredentialsFormValid(post, username, password) <==>
      post && Strip(username) != [] && |username| >= 3 && Strip(password) != []
  {
    DataRequiredStrips(username);
    DataRequiredStrips(password);
  }

  /** `EntryForm`: a title and a content; the tags field is optional. */
  predicate EntryFormValid(post: bool, title: string, content: string) {
    post && DataRequired(title) && DataRequired(content)
  }

  /** The entry form accepts a submission exactly when the stripped title and content
      are not empty, whatever the tags field holds. */
  lemma EntryFormStrips(post: bool, title: string, content: string)
    ensures EntryFormValid(post, title, content) <==>
      post && Strip(title) != [] && Strip(content) != []
  {
    DataRequiredStrips(title);
    DataRequiredStrips(content);
  }
}
