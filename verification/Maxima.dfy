/** The largest element of a finite set of integers. */
module Maxima {

  lemma Pick<T>(s: set<T>) returns (x: T)
    requires s != {}
    ensures x in s
  {
    x :| x in s;
  }

  ghost function MaxOf(codes: set<int>): (m: int)
    requires codes != {}
    ensures m in codes && forall c :: c in codes ==> c <= m
  {
    MaxExists(codes);
    var m :| m in codes && forall c :: c in codes ==> c <= m;
    m
  }

  lemma {:induction false} MaxExists(codes: set<int>)
    requires codes != {}
    ensures exists m :: m in codes && forall c :: c in codes ==> c <= m
  {
    var c := Pick(codes);
    var rest := codes - {c};
    assert forall e :: e in codes ==> e == c || e in rest;
    if rest != {} {
      MaxExists(rest);
      var m :| m in rest && forall e :: e in rest ==> e <= m;
      var top := if c > m then c else m;
      assert top in codes && forall e :: e in codes ==> e <= top;
    }
  }

  ghost function Elements(codes: seq<int>): (r: set<int>)
    ensures codes == [] || codes[0] in r
  {
    set e | e in codes
  }
}
