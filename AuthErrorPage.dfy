/** app/auth/error/page.tsx: the message shown for the `error` query
    parameter of the sign-in error page. */
module AuthErrorPage {
  import opened JsText

  const ConfigurationMessage := "There is a problem with the server configuration."
  const AccessDeniedMessage := "Access was denied. Please try again."
  const VerificationMessage := "The verification token has expired or has already been used."
  const GenericMessage := "An authentication error occurred. Please try again."

  /** The three error codes the page names. */
  predicate KnownCode(code: string)
  {
    code == "Configuration" || code == "AccessDenied" || code == "Verification"
  }

  /** `getErrorMessage`: a switch on the code, `null` (an absent parameter)
      and every other code falling to the generic message. */
  function GetErrorMessage(error: Option<string>): (message: string)
    ensures message != []
    ensures error == Some("Configuration") ==> message == ConfigurationMessage
    ensures error == Some("AccessDenied") ==> message == AccessDeniedMessage
    ensures error == Some("Verification") ==> message == VerificationMessage
    ensures message == GenericMessage <==> !(error.Some? && KnownCode(error.value))
  {
    match error
    case Some("Configuration") => ConfigurationMessage
    case Some("AccessDenied") => AccessDeniedMessage
    case Some("Verification") => VerificationMessage
    case _ => GenericMessage
  }

  /** Each known code has its own message: the lookup tells them apart. */
  lemma KnownCodesDistinct(a: string, b: string)
    requires KnownCode(a) && KnownCode(b) && a != b
    ensures GetErrorMessage(Some(a)) != GetErrorMessage(Some(b))
  {
  }
}
