/**
 * Whether the report is mailed (main.go:226-234) and the message
 * `sendReportEmail` builds (main.go:254-268). Delivery itself is not modelled.
 */
module Email {
  import opened Wrappers
  import opened Config

  const Subject: string := "Financial Account Balance Report"

  /** The headers and dialer settings of the report mail; the body is the HTML report. */
  datatype Message = Message(
    from: string,
    to: string,
    subject: string,
    body: string,
    host: string,
    port: int,
    user: string,
    pass: string)

  /** Send the message, log a warning and skip, or skip silently. */
  datatype Action = Send(message: Message) | Warn | Skip

  /** The From address: the configured sender, or the SMTP username when none is configured. */
  function SenderOf(s: Settings): (from: string)
    ensures from == s.smtpFrom || from == s.smtpUser
    ensures s.smtpFrom != "" ==> from == s.smtpFrom
    ensures from == "" <==> s.smtpFrom == "" && s.smtpUser == ""
  {
    if s.smtpFrom == "" then s.smtpUser else s.smtpFrom
  }

  /** The gate on the recipient, SMTP host and SMTP username. */
  function Decide(s: Settings, html: string): (a: Action)
    ensures a.Send? <==> s.emailTo != "" && s.smtpHost != "" && s.smtpUser != ""
    ensures a.Warn? <==> s.emailTo != "" && (s.smtpHost == "" || s.smtpUser == "")
    ensures a.Skip? <==> s.emailTo == ""
    ensures a.Send? ==> && a.message.from != "" && a.message.from == SenderOf(s)
                        && a.message.to == s.emailTo && a.message.subject == Subject
                        && a.message.body == html
                        && a.message.host == s.smtpHost && a.message.port == s.smtpPort
                        && a.message.user == s.smtpUser && a.message.pass == s.smtpPass
  {
    if s.emailTo != "" && s.smtpHost != "" && s.smtpUser != "" then
      Send(Message(SenderOf(s), s.emailTo, Subject, html, s.smtpHost, s.smtpPort, s.smtpUser, s.smtpPass))
    else if s.emailTo != "" then Warn
    else Skip
  }

  /**
   * Mail settings left empty on the command line are taken from the config file's
   * environment: with recipient, host and username there, the report is sent to
   * that recipient, from the configured sender or else from the SMTP username.
   */
  lemma MailFromEnvironment(flags: Settings, env: Env, scan: string -> Option<int>, html: string)
    requires RequiredMissing(flags)
    requires flags.emailTo == "" && flags.smtpHost == "" && flags.smtpUser == ""
    requires Getenv(env, "EMAIL_TO") != "" && Getenv(env, "SMTP_HOST") != "" && Getenv(env, "SMTP_USER") != ""
    requires Resolve(flags, Loaded, env, scan).Success?
    ensures var a := Decide(Resolve(flags, Loaded, env, scan).value, html);
      && a.Send?
      && a.message.to == Getenv(env, "EMAIL_TO")
      && a.message.host == Getenv(env, "SMTP_HOST")
      && a.message.user == Getenv(env, "SMTP_USER")
      && (flags.smtpFrom != "" ==> a.message.from == flags.smtpFrom)
      && (flags.smtpFrom == "" && Getenv(env, "SMTP_FROM") != "" ==> a.message.from == Getenv(env, "SMTP_FROM"))
      && (flags.smtpFrom == "" && Getenv(env, "SMTP_FROM") == "" ==> a.message.from == Getenv(env, "SMTP_USER"))
  {
  }

  /** When the config file is not consulted, the mail decision is the command line's own. */
  lemma FlagsDecideMailUnlessConsulted(flags: Settings, file: FileState, env: Env, scan: string -> Option<int>, html: string)
    requires !ConsultsFile(flags, file)
    requires Resolve(flags, file, env, scan).Success?
    ensures Decide(Resolve(flags, file, env, scan).value, html) == Decide(flags, html)
    ensures flags.emailTo == "" ==> Decide(Resolve(flags, file, env, scan).value, html).Skip?
  {
  }
}
