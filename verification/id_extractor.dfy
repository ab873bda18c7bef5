/**
 * Recovering an episode id from an anchor's href: every find of IMDB_ID_PATTERN is
 * visited and the last non-null group 1 is kept (ImdbTvShowParser.java, lines 341-347).
 */
module IdExtractor {
  import opened Wrappers

  /** The last present group among the matches, or "" when no match has one. */
  function LastGroup(groups: seq<Option<string>>): string {
    if groups == [] then ""
    else match groups[|groups| - 1]
      case Some(g) => g
      case None => LastGroup(groups[..|groups| - 1])
  }

  /** The last match wins: the id is the group of a match after which no match has one. */
  lemma {:induction false} LastGroupIsLast(groups: seq<Option<string>>)
    ensures (forall k :: 0 <= k < |groups| ==> groups[k].None?) ==> LastGroup(groups) == ""
    ensures (exists k :: 0 <= k < |groups| && groups[k].Some?) ==>
              exists k :: 0 <= k < |groups| && groups[k] == Some(LastGroup(groups)) &&
                          forall j :: k < j < |groups| ==> groups[j].None?
  {
    if groups != [] {
      var n := |groups| - 1;
      var init := groups[..n];
      LastGroupIsLast(init);
      if groups[n].Some? {
        assert groups[n] == Some(LastGroup(groups));
      } else {
        assert forall k :: 0 <= k < n ==> init[k] == groups[k];
        if exists k :: 0 <= k < |groups| && groups[k].Some? {
          var k :| 0 <= k < |init| && init[k] == Some(LastGroup(init)) &&
                   forall j :: k < j < |init| ==> init[j].None?;
          assert groups[k] == Some(LastGroup(groups));
        }
      }
    }
  }

  /** The `while (idMatcher.find())` loop, overwriting `id` at each non-null group. */
  method ExtractId(groups: seq<Option<string>>) returns (id: string)
    ensures id == LastGroup(groups)
  {
    id := "";
    var i := 0;
    while i < |groups|
      invariant 0 <= i <= |groups|
      invariant id == LastGroup(groups[..i])
    {
      assert groups[..i + 1][..i] == groups[..i];
      if groups[i].Some? {
        id := groups[i].value;
      }
      i := i + 1;
    }
    assert groups[..i] == groups;
  }
}
