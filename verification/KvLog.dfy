/** The log of flash snapshots: every single write is on record. */
module KvLog {
  import opened KvFlash
  import opened KvWrites

  /** `b` extends `a` by snapshots that all determine one of the two maps. */
  ghost predicate Logged(a: seq<Flash>, b: seq<Flash>, m0: map<Name, Value>, m1: map<Name, Value>) {
    a <= b && AllRecoverable(b[|a|..], m0, m1)
  }

  lemma LoggedRefl(a: seq<Flash>, m0: map<Name, Value>, m1: map<Name, Value>)
    ensures Logged(a, a, m0, m1)
  {
  }

  lemma LoggedAdd(a: seq<Flash>, b: seq<Flash>, w: seq<Flash>, m0: map<Name, Value>, m1: map<Name, Value>)
    requires Logged(a, b, m0, m1) && AllRecoverable(w, m0, m1)
    ensures Logged(a, b + w, m0, m1)
  {
    assert (b + w)[|a|..] == b[|a|..] + w;
  }

  lemma LoggedTrans(a: seq<Flash>, b: seq<Flash>, c: seq<Flash>, m0: map<Name, Value>, m1: map<Name, Value>)
    requires Logged(a, b, m0, m1) && Logged(b, c, m0, m1)
    ensures Logged(a, c, m0, m1)
  {
    assert c[|a|..] == b[|a|..] + c[|b|..];
  }

  lemma LoggedWeaken(a: seq<Flash>, b: seq<Flash>, m0: map<Name, Value>, m1: map<Name, Value>)
    requires Logged(a, b, m0, m0)
    ensures Logged(a, b, m0, m1) && Logged(a, b, m1, m0)
  {
  }
}
