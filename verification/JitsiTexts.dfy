/** The texts that the Jitsi patchers look for and write. */
module JitsiTexts {
  import opened Text
  import opened JitsiPatch
  import JitsiProsody
  import JitsiBraces
  import JitsiJvb
  import JitsiKeys
  import JitsiHarvester

  // ---- Prosody ---------------------------------------------------------------------------------

  lemma SettingTexts()
    ensures JitsiProsody.Anon() == "authentication = \"jitsi-anonymous\""
    ensures JitsiProsody.Hashed() == "authentication = \"internal_hashed\""
    ensures JitsiProsody.Component() == "Component \""
  {}

  lemma CommentText()
    ensures JitsiProsody.CommentLine() == "-- Guest domain" + " for unauthenticated participants (" + "auto-configured" + ")"
  {}

  lemma HostText(h: string)
    ensures JitsiProsody.Marker(h) == "VirtualHost \"guest." + h + "\""
  {}

  lemma BodyTexts()
    ensures JitsiProsody.GuestBody() ==
              ["    " + "authentication = \"jitsi-anonymous\"", "    " + "modules_enabled = {",
               "        " + "\"turncredentials\";", "    " + "}", "    " + "c2s_require_encryption = false"]
  {
    hide JitsiProsody.Anon;
    SettingTexts();
  }

  /** The block that enabling inserts. */
  lemma GuestText(h: string)
    ensures JitsiProsody.GuestBlock(h) ==
              "\n" + Join(["-- Guest domain" + " for unauthenticated participants (" + "auto-configured" + ")",
                           "VirtualHost \"guest." + h + "\"",
                           "    " + "authentication = \"jitsi-anonymous\"", "    " + "modules_enabled = {",
                           "        " + "\"turncredentials\";", "    " + "}", "    " + "c2s_require_encryption = false"]) + "\n"
  {
    hide JitsiProsody.CommentLine, JitsiProsody.Marker, JitsiProsody.GuestBody, Join;
    CommentText();
    HostText(h);
    BodyTexts();
    assert JitsiProsody.GuestLines(h) ==
           ["-- Guest domain" + " for unauthenticated participants (" + "auto-configured" + ")",
            "VirtualHost \"guest." + h + "\"",
            "    " + "authentication = \"jitsi-anonymous\"", "    " + "modules_enabled = {",
            "        " + "\"turncredentials\";", "    " + "}", "    " + "c2s_require_encryption = false"];
  }

  /** Which lines the removal takes for a guest comment, and which end the block: one with something at its
      very start that is neither blank nor a comment. */
  lemma LineKinds(l: string)
    ensures JitsiProsody.IsGuestComment(l) <==> "-- Guest domain" <= Strip(l) && Contains(l, "auto-configured")
    ensures JitsiProsody.EndsBlock(l) <==> Strip(l) != "" && l[0] != ' ' && l[0] != '\t' && !("--" <= Strip(l))
  {
    hide Contains;
    if Strip(l) != "" { NotEmpty(l); }
  }

  lemma NotEmpty(l: string)
    requires Strip(l) != ""
    ensures l != ""
  {}

  // ---- Jicofo and the videobridge --------------------------------------------------------------

  lemma LoginText(h: string)
    ensures JitsiBraces.AuthLines(h) ==
              ["  authentication {", "    enabled = true", "    type = \"XMPP\"", "    login-url = \"" + h + "\"", "  }"]
    ensures JitsiBraces.AuthHead() == "authentication {" && JitsiBraces.LoginUrl() == "login-url"
  {
    assert JitsiBraces.AuthOpen() == "  authentication {";
    assert JitsiBraces.LoginLine(h) == "    login-url = \"" + h + "\"";
    assert JitsiBraces.AuthClose() == "  }";
  }

  lemma IceText()
    ensures JitsiJvb.IceLines() ==
              ["ice {", "    " + "udp {", "    " + ("    " + "port = 10000"), "    " + "}", "    " + "tcp {",
               "    " + ("    " + "enabled = true"), "    " + ("    " + "port = 4443"), "    " + "}", "}"]
  {}

  /** What counts as TCP being on already, and what as a block to replace. */
  lemma TcpTexts(c: string)
    ensures JitsiJvb.TcpEnabled(c) <==> Contains(c, "tcp {") && Contains(c, "enabled = true")
    ensures JitsiJvb.IceHead() == "ice {"
  {
    hide Contains;
  }

  // ---- coturn and the NAT harvester ------------------------------------------------------------

  lemma MissingMore(req: seq<JitsiKeys.Directive>, d: JitsiKeys.Directive)
    ensures JitsiKeys.Missing(req + [d], {}) == JitsiKeys.Missing(req, {}) + [d.Line()]
  {
    assert (req + [d])[..|req|] == req;
  }

  lemma CertText(h: string, le: bool)
    ensures JitsiKeys.CertPath(h, le) ==
              if le then "/etc/letsencrypt/live/" + h + "/fullchain.pem" else "/etc/jitsi/meet/" + h + ".crt"
  {}

  lemma KeyText(h: string, le: bool)
    ensures JitsiKeys.KeyPath(h, le) ==
              if le then "/etc/letsencrypt/live/" + h + "/privkey.pem" else "/etc/jitsi/meet/" + h + ".key"
  {}

  lemma KeyTexts()
    ensures JitsiKeys.PortKey() + "=" + "5349" == "tls-listening-port=5349"
    ensures JitsiKeys.MulticastKey() == "no-multicast-peers" && JitsiKeys.CliKey() == "no-cli"
    ensures JitsiKeys.LoopbackKey() == "no-loopback-peers"
  {}

  /** The lines that a file without any of the directives gets, with certificates of Let's Encrypt or
      those of the Jitsi installation. */
  lemma DirectiveTexts(h: string, le: bool)
    ensures JitsiKeys.Missing(JitsiKeys.Required(h, le), {}) ==
              ["tls-listening-port=5349",
               "cert" + "=" + if le then "/etc/letsencrypt/live/" + h + "/fullchain.pem" else "/etc/jitsi/meet/" + h + ".crt",
               "pkey" + "=" + if le then "/etc/letsencrypt/live/" + h + "/privkey.pem" else "/etc/jitsi/meet/" + h + ".key",
               "no-multicast-peers", "no-cli", "no-loopback-peers"]
  {
    hide JitsiKeys.CertPath, JitsiKeys.KeyPath, JitsiKeys.PortKey, JitsiKeys.MulticastKey, JitsiKeys.CliKey, JitsiKeys.LoopbackKey;
    CertText(h, le);
    KeyText(h, le);
    KeyTexts();
    var r := JitsiKeys.Required(h, le);
    assert r == [] + [r[0]] + [r[1]] + [r[2]] + [r[3]] + [r[4]] + [r[5]];
    MissingMore([], r[0]);
    MissingMore([] + [r[0]], r[1]);
    MissingMore([] + [r[0]] + [r[1]], r[2]);
    MissingMore([] + [r[0]] + [r[1]] + [r[2]], r[3]);
    MissingMore([] + [r[0]] + [r[1]] + [r[2]] + [r[3]], r[4]);
    MissingMore([] + [r[0]] + [r[1]] + [r[2]] + [r[3]] + [r[4]], r[5]);
  }

  /** Of the directives, these two are also put right where a line has another value. */
  lemma RewrittenKeys(key: string)
    ensures JitsiKeys.Updated(key) <==> key in ["cert", "pkey"]
  {}

  lemma LocalKeyText()
    ensures JitsiHarvester.LocalKey() == "org.ice4j.ice.harvest." + "NAT_HARVESTER_LOCAL_ADDRESS"
  {}

  lemma PublicKeyText()
    ensures JitsiHarvester.PublicKey() == "org.ice4j.ice.harvest." + "NAT_HARVESTER_PUBLIC_ADDRESS"
  {}

  lemma HarvesterTexts(lan: string, wan: string)
    ensures JitsiHarvester.Setting(JitsiHarvester.LocalKey(), lan) == "org.ice4j.ice.harvest." + "NAT_HARVESTER_LOCAL_ADDRESS" + "=" + lan
    ensures JitsiHarvester.Setting(JitsiHarvester.PublicKey(), wan) == "org.ice4j.ice.harvest." + "NAT_HARVESTER_PUBLIC_ADDRESS" + "=" + wan
  {
    hide JitsiHarvester.LocalKey, JitsiHarvester.PublicKey;
    LocalKeyText();
    PublicKeyText();
  }
}
