/**
 * The server's TLS configuration: the names of the cipher suites it may
 * offer, translated to the IANA code points Go's `crypto/tls` assigns them.
 */
module Config {
  import opened Base

  /** A TLS cipher-suite code point (Go's `uint16`). */
  type CipherId = x: int | 0 <= x < 0x1_0000

  /** The `crypto/tls` constant for a configured name: the cases of the switch in `CipherSuites`. */
  function CipherValue(name: string): Option<CipherId> {
    if name == "TLS_RSA_WITH_RC4_128_SHA" then Some(0x0005)
    else if name == "TLS_RSA_WITH_3DES_EDE_CBC_SHA" then Some(0x000A)
    else if name == "TLS_RSA_WITH_AES_128_CBC_SHA" then Some(0x002F)
    else if name == "TLS_RSA_WITH_AES_256_CBC_SHA" then Some(0x0035)
    else if name == "TLS_ECDHE_ECDSA_WITH_RC4_128_SHA" then Some(0xC007)
    else if name == "TLS_ECDHE_ECDSA_WITH_AES_128_CBC_SHA" then Some(0xC009)
    else if name == "TLS_ECDHE_ECDSA_WITH_AES_256_CBC_SHA" then Some(0xC00A)
    else if name == "TLS_ECDHE_RSA_WITH_RC4_128_SHA" then Some(0xC011)
    else if name == "TLS_ECDHE_RSA_WITH_3DES_EDE_CBC_SHA" then Some(0xC012)
    else if name == "TLS_ECDHE_RSA_WITH_AES_128_CBC_SHA" then Some(0xC013)
    else if name == "TLS_ECDHE_RSA_WITH_AES_256_CBC_SHA" then Some(0xC014)
    else if name == "TLS_ECDHE_RSA_WITH_AES_128_GCM_SHA256" then Some(0xC02F)
    else if name == "TLS_ECDHE_ECDSA_WITH_AES_128_GCM_SHA256" then Some(0xC02B)
    else if name == "TLS_ECDHE_RSA_WITH_AES_256_GCM_SHA384" then Some(0xC030)
    else if name == "TLS_ECDHE_ECDSA_WITH_AES_256_GCM_SHA384" then Some(0xC02C)
    else if name == "TLS_FALLBACK_SCSV" then Some(0x5600)
    else None
  }

  /** The name under which the switch yields a constant, read backwards. */
  function CipherName(id: CipherId): Option<string> {
    if id == 0x0005 then Some("TLS_RSA_WITH_RC4_128_SHA")
    else if id == 0x000A then Some("TLS_RSA_WITH_3DES_EDE_CBC_SHA")
    else if id == 0x002F then Some("TLS_RSA_WITH_AES_128_CBC_SHA")
    else if id == 0x0035 then Some("TLS_RSA_WITH_AES_256_CBC_SHA")
    else if id == 0xC007 then Some("TLS_ECDHE_ECDSA_WITH_RC4_128_SHA")
    else if id == 0xC009 then Some("TLS_ECDHE_ECDSA_WITH_AES_128_CBC_SHA")
    else if id == 0xC00A then Some("TLS_ECDHE_ECDSA_WITH_AES_256_CBC_SHA")
    else if id == 0xC011 then Some("TLS_ECDHE_RSA_WITH_RC4_128_SHA")
    else if id == 0xC012 then Some("TLS_ECDHE_RSA_WITH_3DES_EDE_CBC_SHA")
    else if id == 0xC013 then Some("TLS_ECDHE_RSA_WITH_AES_128_CBC_SHA")
    else if id == 0xC014 then Some("TLS_ECDHE_RSA_WITH_AES_256_CBC_SHA")
    else if id == 0xC02F then Some("TLS_ECDHE_RSA_WITH_AES_128_GCM_SHA256")
    else if id == 0xC02B then Some("TLS_ECDHE_ECDSA_WITH_AES_128_GCM_SHA256")
    else if id == 0xC030 then Some("TLS_ECDHE_RSA_WITH_AES_256_GCM_SHA384")
    else if id == 0xC02C then Some("TLS_ECDHE_ECDSA_WITH_AES_256_GCM_SHA384")
    else if id == 0x5600 then Some("TLS_FALLBACK_SCSV")
    else None
  }

  /** Every recognised name maps to a constant that names it back. */
  lemma CipherNameOfValue(name: string)
    requires CipherValue(name).Some?
    ensures CipherName(CipherValue(name).value) == Some(name)
  {
    var id := CipherValue(name).value;
    if id == 0x0005 {
      assert name == "TLS_RSA_WITH_RC4_128_SHA";
    } else if id == 0x000A {
      assert name == "TLS_RSA_WITH_3DES_EDE_CBC_SHA";
    } else if id == 0x002F {
      assert name == "TLS_RSA_WITH_AES_128_CBC_SHA";
    } else if id == 0x0035 {
      assert name == "TLS_RSA_WITH_AES_256_CBC_SHA";
    } else if id == 0xC007 {
      assert name == "TLS_ECDHE_ECDSA_WITH_RC4_128_SHA";
    } else if id == 0xC009 {
      assert name == "TLS_ECDHE_ECDSA_WITH_AES_128_CBC_SHA";
    } else if id == 0xC00A {
      assert name == "TLS_ECDHE_ECDSA_WITH_AES_256_CBC_SHA";
    } else if id == 0x5600 {
      assert name == "TLS_FALLBACK_SCSV";
    } else if id == 0xC011 {
      assert name == "TLS_ECDHE_RSA_WITH_RC4_128_SHA";
    } else if id == 0xC012 {
      assert name == "TLS_ECDHE_RSA_WITH_3DES_EDE_CBC_SHA";
    } else if id == 0xC013 {
      assert name == "TLS_ECDHE_RSA_WITH_AES_128_CBC_SHA";
    } else if id == 0xC014 {
      assert name == "TLS_ECDHE_RSA_WITH_AES_256_CBC_SHA";
    } else if id == 0xC02F {
      assert name == "TLS_ECDHE_RSA_WITH_AES_128_GCM_SHA256";
    } else if id == 0xC02B {
      assert name == "TLS_ECDHE_ECDSA_WITH_AES_128_GCM_SHA256";
    } else if id == 0xC030 {
      assert name == "TLS_ECDHE_RSA_WITH_AES_256_GCM_SHA384";
    } else if id == 0xC02C {
      assert name == "TLS_ECDHE_ECDSA_WITH_AES_256_GCM_SHA384";
    }
  }

  /** Every constant that has a name maps back to itself through that name. */
  lemma CipherValueOfName(id: CipherId)
    requires CipherName(id).Some?
    ensures CipherValue(CipherName(id).value) == Some(id)
  {
    if id < 0xC011 {
      CipherValueOfNameBelow(id);
    } else {
      CipherValueOfNameAbove(id);
    }
  }

  lemma CipherValueOfNameBelow(id: CipherId)
    requires CipherName(id).Some? && id < 0xC011
    ensures CipherValue(CipherName(id).value) == Some(id)
  {
    if id == 0x0005 {
      assert CipherValue("TLS_RSA_WITH_RC4_128_SHA") == Some(0x0005);
    } else if id == 0x000A {
      assert CipherValue("TLS_RSA_WITH_3DES_EDE_CBC_SHA") == Some(0x000A);
    } else if id == 0x002F {
      assert CipherValue("TLS_RSA_WITH_AES_128_CBC_SHA") == Some(0x002F);
    } else if id == 0x0035 {
      assert CipherValue("TLS_RSA_WITH_AES_256_CBC_SHA") == Some(0x0035);
    } else if id == 0xC007 {
      assert CipherValue("TLS_ECDHE_ECDSA_WITH_RC4_128_SHA") == Some(0xC007);
    } else if id == 0xC009 {
      assert CipherValue("TLS_ECDHE_ECDSA_WITH_AES_128_CBC_SHA") == Some(0xC009);
    } else if id == 0xC00A {
      assert CipherValue("TLS_ECDHE_ECDSA_WITH_AES_256_CBC_SHA") == Some(0xC00A);
    } else if id == 0x5600 {
      assert CipherValue("TLS_FALLBACK_SCSV") == Some(0x5600);
    }
  }

  lemma CipherValueOfNameAbove(id: CipherId)
    requires CipherName(id).Some? && id >= 0xC011
    ensures CipherValue(CipherName(id).value) == Some(id)
  {
    if id == 0xC011 {
      assert CipherValue("TLS_ECDHE_RSA_WITH_RC4_128_SHA") == Some(0xC011);
    } else if id == 0xC012 {
      assert CipherValue("TLS_ECDHE_RSA_WITH_3DES_EDE_CBC_SHA") == Some(0xC012);
    } else if id == 0xC013 {
      assert CipherValue("TLS_ECDHE_RSA_WITH_AES_128_CBC_SHA") == Some(0xC013);
    } else if id == 0xC014 {
      assert CipherValue("TLS_ECDHE_RSA_WITH_AES_256_CBC_SHA") == Some(0xC014);
    } else if id == 0xC02F {
      assert CipherValue("TLS_ECDHE_RSA_WITH_AES_128_GCM_SHA256") == Some(0xC02F);
    } else if id == 0xC02B {
      assert CipherValue("TLS_ECDHE_ECDSA_WITH_AES_128_GCM_SHA256") == Some(0xC02B);
    } else if id == 0xC030 {
      assert CipherValue("TLS_ECDHE_RSA_WITH_AES_256_GCM_SHA384") == Some(0xC030);
    } else if id == 0xC02C {
      assert CipherValue("TLS_ECDHE_ECDSA_WITH_AES_256_GCM_SHA384") == Some(0xC02C);
    }
  }

  /** Two recognised names that give the same constant are the same name. */
  lemma CipherValueInjective(a: string, b: string)
    requires CipherValue(a).Some? && CipherValue(a) == CipherValue(b)
    ensures a == b
  {
    CipherNameOfValue(a);
    CipherNameOfValue(b);
  }

  /** The panic message for a name the switch does not know. */
  function UnknownCipher(name: string): string {
    "Unknown cipher '" + name + "' configured."
  }

  /**
   * The loop of `CipherSuites`, for any lookup: one constant per name, in
   * order; the first name the lookup does not know panics.
   */
  function Translate(names: seq<string>, lookup: string -> Option<CipherId>): (r: Outcome<seq<CipherId>>)
    ensures r.Done? <==> forall i :: 0 <= i < |names| ==> lookup(names[i]).Some?
    ensures r.Done? ==> |r.value| == |names|
                        && forall i :: 0 <= i < |names| ==> lookup(names[i]) == Some(r.value[i])
    ensures r.Panicked? ==> exists i :: 0 <= i < |names| && lookup(names[i]).None?
                                        && r.message == UnknownCipher(names[i])
                                        && forall j :: 0 <= j < i ==> lookup(names[j]).Some?
  {
    if |names| == 0 then Done([])
    else match lookup(names[0])
      case None => Panicked(UnknownCipher(names[0]))
      case Some(c) =>
        match Translate(names[1..], lookup)
        case Panicked(m) =>
          assert exists i :: 1 <= i < |names| && lookup(names[i]).None? && m == UnknownCipher(names[i])
                             && forall j :: 0 <= j < i ==> lookup(names[j]).Some? by {
            var i :| 0 <= i < |names[1..]| && lookup(names[1..][i]).None? && m == UnknownCipher(names[1..][i])
                     && forall j :: 0 <= j < i ==> lookup(names[1..][j]).Some?;
            assert names[1..][i] == names[i + 1];
            forall j | 0 <= j < i + 1 ensures lookup(names[j]).Some? {
              if j > 0 { assert names[1..][j - 1] == names[j]; }
            }
          }
          Panicked(m)
        case Done(rest) =>
          assert forall i :: 1 <= i < |names| ==> names[i] == names[1..][i - 1];
          Done([c] + rest)
  }

  /**
   * `configuration.CipherSuites`: one constant per configured name, in order;
   * the first unknown name panics, and an empty list gives an empty result.
   */
  function CipherSuites(names: seq<string>): (r: Outcome<seq<CipherId>>)
    ensures |names| == 0 ==> r == Done([])
    ensures r.Done? <==> forall i :: 0 <= i < |names| ==> CipherValue(names[i]).Some?
    ensures r.Done? ==> |r.value| == |names|
                        && forall i :: 0 <= i < |names| ==> CipherValue(names[i]) == Some(r.value[i])
    ensures r.Panicked? ==> exists i :: 0 <= i < |names| && CipherValue(names[i]).None?
                                        && r.message == UnknownCipher(names[i])
                                        && forall j :: 0 <= j < i ==> CipherValue(names[j]).Some?
  {
    Translate(names, CipherValue)
  }

  /** Naming the constants `CipherSuites` returns gives back the configured names. */
  lemma CipherSuitesNamesBack(names: seq<string>)
    requires CipherSuites(names).Done?
    ensures forall i :: 0 <= i < |names| ==> CipherName(CipherSuites(names).value[i]) == Some(names[i])
  {
    forall i | 0 <= i < |names| ensures CipherName(CipherSuites(names).value[i]) == Some(names[i]) {
      CipherNameOfValue(names[i]);
    }
  }
}
