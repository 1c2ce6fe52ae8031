/** What `vip_handler` makes of a `/vip` command: a bare `/vip` asks for the
    payment information; anything else carries a payment token for the
    verifier. */
module Vip {
  import opened Text

  const VipCommand := "/vip"

  datatype VipRequest = ShowInfo | Verify(token: string)

  /** The stripped text is compared with `/vip`; if it differs, every `/vip`
      in it is removed and what remains, stripped again, is the token. */
  function ParseVip(text: string): (r: VipRequest)
    ensures r.ShowInfo? <==> Strip(text) == VipCommand
    ensures r.Verify? ==> r.token == [] || (!IsSpace(r.token[0]) && !IsSpace(r.token[|r.token| - 1]))
    ensures r.Verify? ==> |r.token| <= |text|
  {
    var t := Strip(text);
    if t == VipCommand then ShowInfo
    else
      var rest := ReplaceAll(t, VipCommand, "");
      Verify(Strip(rest))
  }

  /** Whitespace put in front of a text without `/vip` does not create
      one. */
  lemma {:induction false} NoVipAcrossSpace(w: string, u: string)
    requires AllSpace(w) && !Contains(u, VipCommand)
    ensures !Contains(w + u, VipCommand)
    decreases |w|
  {
    if w == [] {
      assert w + u == u;
    } else {
      MismatchAt(w + u, VipCommand, 0);
      ContainsStep(w + u, VipCommand);
      assert (w + u)[1..] == w[1..] + u;
      NoVipAcrossSpace(w[1..], u);
    }
  }

  /** `/vip` and nothing but whitespace around it is the bare command. */
  lemma BareCommand(w1: string, w2: string)
    requires AllSpace(w1) && AllSpace(w2)
    ensures ParseVip(w1 + VipCommand + w2) == ShowInfo
  {
    StripAround(w1, VipCommand, w2);
  }

  /** A text made of `/vip`, whitespace and a part with no whitespace at its
      end is its own stripped form, and not the bare command. */
  lemma CommandTextStripped(w: string, u: string)
    requires AllSpace(w) && u != [] && !IsSpace(u[|u| - 1])
    ensures var text := VipCommand + w + u;
      Strip(text) == text && text != VipCommand
  {
    var text := VipCommand + w + u;
    assert text[0] == '/' && text[|text| - 1] == u[|u| - 1];
    StripAround([], text, []);
    assert [] + text + [] == text;
    assert |text| > |VipCommand|;
  }

  /** A leading `/vip` is removed and the scan goes on behind it. */
  lemma ReplaceLeadingVip(x: string)
    ensures ReplaceAll(VipCommand + x, VipCommand, "") == ReplaceAll(x, VipCommand, "")
  {
    var s := VipCommand + x;
    assert s[..|VipCommand|] == VipCommand;
    assert s[|VipCommand|..] == x;
  }

  /** `/vip`, optional whitespace, then a token that has no whitespace at its
      ends and no `/vip` in it: the verifier gets exactly that token. */
  lemma CommandThenToken(w: string, token: string)
    requires AllSpace(w)
    requires token != [] && !IsSpace(token[0]) && !IsSpace(token[|token| - 1])
    requires !Contains(token, VipCommand)
    ensures ParseVip(VipCommand + w + token) == Verify(token)
  {
    CommandTextStripped(w, token);
    RemoveLeadingVip(w, token);
    StripAround(w, token, []);
    assert w + token + [] == w + token;
  }

  /** Removing `/vip` from `/vip`, whitespace and a text without `/vip`
      leaves the whitespace and that text. */
  lemma RemoveLeadingVip(w: string, u: string)
    requires AllSpace(w) && !Contains(u, VipCommand)
    ensures ReplaceAll(VipCommand + w + u, VipCommand, "") == w + u
  {
    assert VipCommand + w + u == VipCommand + (w + u);
    ReplaceLeadingVip(w + u);
    NoVipAcrossSpace(w, u);
    ReplaceAllAbsent(w + u, VipCommand, "");
  }

  /** The bare-command test comes before the removal: `/vip`, whitespace and
      `/vip` again is not the bare command, and the verifier is called with
      an empty token. */
  lemma DoubleCommandEmptyToken(w: string)
    requires AllSpace(w)
    ensures ParseVip(VipCommand + w + VipCommand) == Verify([])
  {
    CommandTextStripped(w, VipCommand);
    assert VipCommand + w + VipCommand == VipCommand + (w + VipCommand);
    ReplaceLeadingVip(w + VipCommand);
    SpacesThenVip(w);
    StripAllSpace(w);
  }

  /** Removing `/vip` from whitespace followed by `/vip` leaves the
      whitespace. */
  lemma {:induction false} SpacesThenVip(w: string)
    requires AllSpace(w)
    ensures ReplaceAll(w + VipCommand, VipCommand, "") == w
    decreases |w|
  {
    if w == [] {
      assert w + VipCommand == VipCommand;
      assert VipCommand[|VipCommand|..] == [];
    } else {
      MismatchAt(w + VipCommand, VipCommand, 0);
      assert (w + VipCommand)[1..] == w[1..] + VipCommand;
      SpacesThenVip(w[1..]);
      assert [w[0]] + w[1..] == w;
    }
  }
}
