/** `command.rs`: the commands the server knows and `Command::from`. */
module Commands {
  import opened Wrappers
  import opened Text

  /**
   * The recognised verbs. `command.rs` declares `PING`, `ECHO` and `GET`;
   * `Set` is the variant that `lib.rs` also uses.
   */
  datatype Command = Ping | Echo | Get | Set

  /**
   * `Command::from`: the verb `echo`, `ping` or `get`, in any letter case;
   * every other string, `set` included, is no command.
   */
  function From(s: Bytes): (r: Option<Command>)
    ensures r == Some(Echo) <==> ToLower(s) == "echo"
    ensures r == Some(Ping) <==> ToLower(s) == "ping"
    ensures r == Some(Get) <==> ToLower(s) == "get"
    ensures r != Some(Set)
  {
    var lower := ToLower(s);
    if lower == "echo" then Some(Echo)
    else if lower == "ping" then Some(Ping)
    else if lower == "get" then Some(Get)
    else None
  }

  /** Matching ignores case: only the lower-case form of the input matters. */
  lemma FromIgnoresCase(s: Bytes)
    ensures From(s) == From(ToLower(s))
  {
    ToLowerIdempotent(s);
  }

  /** Two inputs that give the same command spell the same verb up to case. */
  lemma FromInjective(a: Bytes, b: Bytes)
    requires From(a).Some? && From(a) == From(b)
    ensures ToLower(a) == ToLower(b)
  {
  }

  /** The unit tests at command.rs:29-54, and `set`, which this revision does not know. */
  lemma FromExamples()
    ensures From("random") == None
    ensures From("echo") == Some(Echo)
    ensures From("ping") == Some(Ping)
    ensures From("get") == Some(Get)
    ensures From("set") == None
    ensures From("GeT") == Some(Get)
  {
    assert ToLower("random") == "random";
    assert ToLower("echo") == "echo";
    assert ToLower("ping") == "ping";
    assert ToLower("get") == "get";
    assert ToLower("set") == "set";
    assert ToLower("GeT") == "get";
  }
}
