// Space tokens: looking up those of a description, their metadata, and the one that fits best.
module SpaceTokens {
  import opened Common
  import opened StatusCodes
  import opened Wire

  const SIZE_MARGIN: int := 1_048_576

  // srm_spacemd
  datatype SpaceMd = SpaceMd(token: Option<string>, owner: Option<string>, totalSize: Long64,
                             guaranteedSize: Long64, unusedSize: Long64,
                             lifetimeAssigned: CInt, lifetimeLeft: CInt,
                             retentionPolicy: RetentionPolicy, accessLatency: AccessLatency)

  // An entry as calloc leaves it
  const BLANK_SPACE := SpaceMd(None, None, 0, 0, 0, 0, 0, UnknownPolicy, UnknownLatency)

  function SizeOf(size: Option<ULong64>): Long64 {
    if size.Some? then ToLong64(size.value) else 0
  }

  // What becomes of one entry of the answer
  function MdOf(raw: Option<RawSpace>): SpaceMd {
    if raw == None || raw.value.spaceToken == None then BLANK_SPACE
    else
      var r := raw.value;
      SpaceMd(r.spaceToken, r.owner, SizeOf(r.totalSize), SizeOf(r.guaranteedSize), SizeOf(r.unusedSize),
              r.lifetimeAssigned.GetOr(0), r.lifetimeLeft.GetOr(0),
              if r.policyInfo.Some? then r.policyInfo.value.retention else UnknownPolicy,
              if r.policyInfo.Some? then r.policyInfo.value.latency.GetOr(UnknownLatency) else UnknownLatency)
  }

  // The server reports a failure for this one entry.
  predicate Refused(raw: Option<RawSpace>) {
    && raw.Some? && raw.value.spaceToken.Some?
    && raw.value.status.Some? && raw.value.status.value != SrmSuccess
  }

  // The tokens that an answer offers, if it is a proper one
  function Offered(r: TokensReply): Option<seq<string>> {
    if r.TokensBody? && r.status == Some(SrmSuccess) && r.tokens.Some? && r.tokens.value != [] then r.tokens
    else None
  }

  // The metadata that an answer gives for n tokens, if it is a proper one
  ghost function Metadata(r: SpaceReply, n: nat): (m: Option<seq<SpaceMd>>)
    ensures m.Some? ==> |m.value| == n
  {
    if && r.SpaceBody? && r.status == Some(SrmSuccess) && r.spaces.Some? && |r.spaces.value| >= 1
       && |r.spaces.value| >= n
       && (forall i :: 0 <= i < n ==> !Refused(r.spaces.value[i]))
    then Some(seq(n, i requires 0 <= i < n => MdOf(r.spaces.value[i])))
    else None
  }

  // Entry i has the least unused size among those with enough of it, and is the first of these.
  ghost predicate IsBest(spaces: seq<SpaceMd>, needed: int, i: int) {
    && 0 <= i < |spaces| && Fits(spaces[i], needed)
    && (forall j :: 0 <= j < |spaces| && Fits(spaces[j], needed) ==> spaces[i].unusedSize <= spaces[j].unusedSize)
    && (forall j :: 0 <= j < i && Fits(spaces[j], needed) ==> spaces[i].unusedSize < spaces[j].unusedSize)
  }

  predicate Fits(space: SpaceMd, needed: int) {
    space.unusedSize >= needed + SIZE_MARGIN
  }

  ghost predicate SomeFits(spaces: seq<SpaceMd>, needed: int) {
    exists i :: 0 <= i < |spaces| && Fits(spaces[i], needed)
  }

  // The token that the best entry carries; NULL if there is no such entry.
  ghost predicate BestToken(spaces: seq<SpaceMd>, needed: int, token: Option<string>) {
    if SomeFits(spaces, needed) then
      exists i :: IsBest(spaces, needed, i) && token == spaces[i].token
    else
      token == None
  }

  // What a lookup for a description asks the server, and the token it ends with
  ghost predicate Chooses(lookup: seq<Event>, desc: string, needed: int, token: Option<string>) {
    && |lookup| >= 1 && lookup[0].TokensExchange? && lookup[0].desc == desc
    && var offered := Offered(lookup[0].tokensReply);
       if offered == None then
         |lookup| == 1 && token == None
       else if |offered.value| == 1 then
         |lookup| == 1 && token == Some(offered.value[0])
       else
         && |lookup| == 2 && lookup[1].SpaceExchange? && lookup[1].tokens == offered.value
         && var spaces := Metadata(lookup[1].spaceReply, |offered.value|);
            if spaces == None then token == None else BestToken(spaces.value, needed, token)
  }

  // The choice is determined by the metadata.
  lemma BestIsUnique(spaces: seq<SpaceMd>, needed: int, i: int, j: int)
    requires IsBest(spaces, needed, i) && IsBest(spaces, needed, j)
    ensures i == j
  {
    assert Fits(spaces[i], needed) && Fits(spaces[j], needed);
  }

  // An entry that the server left without metadata only fits if nothing is needed at all, not even the margin;
  // otherwise what fits carries a token, and is large enough by what the server says.
  lemma BlankFitsOnlyForNothing(r: SpaceReply, n: nat, needed: int, i: int)
    requires Metadata(r, n).Some? && 0 <= i < n && Fits(Metadata(r, n).value[i], needed) && needed + SIZE_MARGIN > 0
    ensures r.SpaceBody? && r.spaces.Some? && i < |r.spaces.value| && r.spaces.value[i].Some?
    ensures var raw := r.spaces.value[i].value;
            && raw.spaceToken.Some? && Metadata(r, n).value[i].token == raw.spaceToken
            && raw.unusedSize.Some? && ToLong64(raw.unusedSize.value) >= needed + SIZE_MARGIN
  {
    assert Metadata(r, n).value[i] == MdOf(r.spaces.value[i]);
  }

  // ---------------------------------------------------------------- the choice, by what the server says

  // The unused size that the server states for an entry, as a signed number; 0 for one without metadata
  ghost function Unused(raw: Option<RawSpace>): int {
    if raw == None || raw.value.spaceToken == None || raw.value.unusedSize == None then 0
    else if raw.value.unusedSize.value < 0x8000_0000_0000_0000 then raw.value.unusedSize.value
    else raw.value.unusedSize.value - 0x1_0000_0000_0000_0000
  }

  // An answer with metadata for n tokens, none of which is refused
  ghost predicate Proper(r: SpaceReply, n: nat) {
    && r.SpaceBody? && r.status == Some(SrmSuccess) && r.spaces.Some? && |r.spaces.value| >= 1
    && |r.spaces.value| >= n
    && forall i :: 0 <= i < n ==>
         var raw := r.spaces.value[i];
         raw == None || raw.value.spaceToken == None || raw.value.status.GetOr(SrmSuccess) == SrmSuccess
  }

  // Entry i is the first of the smallest that have room.
  ghost predicate SmallestWithRoom(r: SpaceReply, n: nat, room: int, i: int)
    requires Proper(r, n)
  {
    && 0 <= i < n && Unused(r.spaces.value[i]) >= room
    && forall j :: 0 <= j < n && Unused(r.spaces.value[j]) >= room ==>
         && Unused(r.spaces.value[i]) <= Unused(r.spaces.value[j])
         && (j < i ==> Unused(r.spaces.value[i]) < Unused(r.spaces.value[j]))
  }

  lemma MetadataAsStated(r: SpaceReply, n: nat)
    ensures Metadata(r, n).Some? <==> Proper(r, n)
    ensures Proper(r, n) ==>
              forall i :: 0 <= i < n ==>
                && Metadata(r, n).value[i].unusedSize == Unused(r.spaces.value[i])
                && Metadata(r, n).value[i].token ==
                     if r.spaces.value[i].Some? then r.spaces.value[i].value.spaceToken else None
  {
    if Proper(r, n) {
      assert forall i :: 0 <= i < n ==> !Refused(r.spaces.value[i]);
      assert forall i :: 0 <= i < n ==> Metadata(r, n).value[i] == MdOf(r.spaces.value[i]);
    }
  }

  lemma BestIsSmallestWithRoom(r: SpaceReply, n: nat, needed: int, i: int)
    requires Proper(r, n) && Metadata(r, n).Some?
    ensures IsBest(Metadata(r, n).value, needed, i) <==> SmallestWithRoom(r, n, needed + 1_048_576, i)
    ensures IsBest(Metadata(r, n).value, needed, i) ==> 0 <= i < n
    ensures SomeFits(Metadata(r, n).value, needed) <==>
              exists j :: 0 <= j < n && Unused(r.spaces.value[j]) >= needed + 1_048_576
  {
    hide Metadata, Unused;
    MetadataAsStated(r, n);
    var spaces := Metadata(r, n).value;
    assert forall j :: 0 <= j < n ==> (Fits(spaces[j], needed) <==> Unused(r.spaces.value[j]) >= needed + 1_048_576);
  }

  // What a lookup does, by the answers alone. Without a proper offer it ends with no token, and a single one
  // that is offered is taken unseen. Among several it ends with the token of the first of the smallest spaces
  // that have room for what is needed and one mebibyte more, and with none exactly if there is no such space.
  lemma LookupByTheAnswers(lookup: seq<Event>, desc: string, needed: int, token: Option<string>)
    requires Chooses(lookup, desc, needed, token)
    ensures 1 <= |lookup| <= 2 && lookup[0].TokensExchange? && lookup[0].desc == desc
    ensures var r := lookup[0].tokensReply;
            if !r.TokensBody? || r.status != Some(SrmSuccess) || r.tokens.GetOr([]) == [] then
              |lookup| == 1 && token == None
            else if |r.tokens.value| == 1 then
              |lookup| == 1 && token == Some(r.tokens.value[0])
            else
              |lookup| == 2 && lookup[1].SpaceExchange? && lookup[1].tokens == r.tokens.value
    ensures |lookup| == 2 && needed + 1_048_576 > 0 ==>
              var r, n := lookup[1].spaceReply, |lookup[1].tokens|;
              && (token.Some? <==>
                    Proper(r, n) && exists i :: 0 <= i < n && Unused(r.spaces.value[i]) >= needed + 1_048_576)
              && (token.Some? ==>
                    exists i ::
                      && SmallestWithRoom(r, n, needed + 1_048_576, i)
                      && r.spaces.value[i].Some? && r.spaces.value[i].value.spaceToken == token)
  {
    hide Metadata, IsBest, SomeFits, Unused, SmallestWithRoom, Proper;
    if |lookup| == 2 && needed + 1_048_576 > 0 {
      ChoiceByTheAnswer(lookup[1].spaceReply, |lookup[1].tokens|, needed, token);
    }
  }

  lemma ChoiceByTheAnswer(r: SpaceReply, n: nat, needed: int, token: Option<string>)
    requires needed + 1_048_576 > 0
    requires if Metadata(r, n) == None then token == None else BestToken(Metadata(r, n).value, needed, token)
    ensures token.Some? <==>
              Proper(r, n) && exists i :: 0 <= i < n && Unused(r.spaces.value[i]) >= needed + 1_048_576
    ensures token.Some? ==>
              exists i ::
                && SmallestWithRoom(r, n, needed + 1_048_576, i)
                && r.spaces.value[i].Some? && r.spaces.value[i].value.spaceToken == token
  {
    hide Metadata, IsBest, SomeFits, Unused, SmallestWithRoom;
    MetadataAsStated(r, n);
    if Metadata(r, n).Some? {
      var spaces := Metadata(r, n).value;
      BestIsSmallestWithRoom(r, n, needed, 0);
      if SomeFits(spaces, needed) {
        var i := BestIndex(spaces, needed, token);
        BestIsSmallestWithRoom(r, n, needed, i);
        RoomNeedsMetadata(r, n, needed, i);
        assert r.spaces.value[i].value.spaceToken == token;
      }
    }
  }

  lemma BestIndex(spaces: seq<SpaceMd>, needed: int, token: Option<string>) returns (i: int)
    requires BestToken(spaces, needed, token) && SomeFits(spaces, needed)
    ensures IsBest(spaces, needed, i) && 0 <= i < |spaces| && token == spaces[i].token
  {
    i :| IsBest(spaces, needed, i) && token == spaces[i].token;
  }

  lemma RoomNeedsMetadata(r: SpaceReply, n: nat, needed: int, i: int)
    requires Proper(r, n) && SmallestWithRoom(r, n, needed + 1_048_576, i) && needed + 1_048_576 > 0
    ensures r.spaces.value[i].Some? && r.spaces.value[i].value.spaceToken.Some?
  {
  }

  // What becomes of an entry of the answer, field by field
  lemma MdFieldByField(raw: RawSpace)
    requires raw.spaceToken.Some?
    ensures var md := MdOf(Some(raw));
            && md.token == raw.spaceToken && md.owner == raw.owner
            && md.totalSize == (if raw.totalSize.GetOr(0) < 0x8000_0000_0000_0000 then raw.totalSize.GetOr(0)
                                else raw.totalSize.value - 0x1_0000_0000_0000_0000)
            && md.guaranteedSize ==
                 (if raw.guaranteedSize.GetOr(0) < 0x8000_0000_0000_0000 then raw.guaranteedSize.GetOr(0)
                  else raw.guaranteedSize.value - 0x1_0000_0000_0000_0000)
            && md.unusedSize == Unused(Some(raw))
            && (raw.lifetimeAssigned.Some? ==> md.lifetimeAssigned == raw.lifetimeAssigned.value)
            && (raw.lifetimeLeft.Some? ==> md.lifetimeLeft == raw.lifetimeLeft.value)
            && (raw.lifetimeAssigned == None ==> md.lifetimeAssigned == 0)
            && (raw.lifetimeLeft == None ==> md.lifetimeLeft == 0)
            && (raw.policyInfo == None ==> md.retentionPolicy == UnknownPolicy && md.accessLatency == UnknownLatency)
            && (raw.policyInfo.Some? ==> md.retentionPolicy == raw.policyInfo.value.retention)
            && (raw.policyInfo.Some? && raw.policyInfo.value.latency == None ==> md.accessLatency == UnknownLatency)
            && (raw.policyInfo.Some? && raw.policyInfo.value.latency.Some? ==>
                  md.accessLatency == raw.policyInfo.value.latency.value)
  {
  }

  // srmv2_getspacetokens
  method GetSpaceTokens(world: World, desc: string) returns (ret: int, spacetokens: array<string>)
    modifies world`now, world`wall, world`log
    ensures old(world.now) <= world.now && old(world.wall) <= world.wall
    ensures |world.log| == |old(world.log)| + 1 && world.log[..|old(world.log)|] == old(world.log)
    ensures var e := world.log[|old(world.log)|];
            && e.TokensExchange? && e.desc == desc
            && (ret == 0 || ret == -1) && (ret == 0 <==> Offered(e.tokensReply).Some?)
            && (ret == 0 ==> spacetokens[..] == Offered(e.tokensReply).value)
    ensures var r := world.log[|old(world.log)|].tokensReply;
            && (ret == 0 <==> r.TokensBody? && r.status == Some(SrmSuccess) && r.tokens.GetOr([]) != [])
            && (ret == 0 ==> spacetokens[..] == r.tokens.value)
  {
    spacetokens := new string[0];
    var rep := world.CallGetSpaceTokens(desc);
    if rep.TokensFault? || rep.TokensNoBody? || rep.status == None || rep.status.value != SrmSuccess
       || rep.tokens == None || |rep.tokens.value| < 1 {
      return -1, spacetokens;
    }
    var n := |rep.tokens.value|;
    spacetokens := new string[n](_ => "");
    for i := 0 to n
      modifies spacetokens
      invariant spacetokens[..i] == rep.tokens.value[..i]
    {
      spacetokens[i] := rep.tokens.value[i];
    }
    ret := 0;
  }

  // The loop body of srmv2_getspacemd, for an entry that has a token and is not refused
  method CopyMd(raw: RawSpace) returns (md: SpaceMd)
    requires raw.spaceToken.Some?
    ensures md == MdOf(Some(raw))
  {
    md := BLANK_SPACE.(token := raw.spaceToken);
    if raw.owner.Some? {
      md := md.(owner := raw.owner);
    }
    if raw.totalSize.Some? {
      md := md.(totalSize := ToLong64(raw.totalSize.value));
    }
    if raw.guaranteedSize.Some? {
      md := md.(guaranteedSize := ToLong64(raw.guaranteedSize.value));
    }
    if raw.unusedSize.Some? {
      md := md.(unusedSize := ToLong64(raw.unusedSize.value));
    }
    if raw.lifetimeAssigned.Some? {
      md := md.(lifetimeAssigned := raw.lifetimeAssigned.value);
    }
    if raw.lifetimeLeft.Some? {
      md := md.(lifetimeLeft := raw.lifetimeLeft.value);
    }
    if raw.policyInfo.Some? {
      md := md.(retentionPolicy := raw.policyInfo.value.retention);
      if raw.policyInfo.value.latency.Some? {
        md := md.(accessLatency := raw.policyInfo.value.latency.value);
      }
    }
  }

  // srmv2_getspacemd
  method GetSpaceMd(world: World, spacetokens: seq<string>) returns (ret: int, spaces: array<SpaceMd>)
    requires |spacetokens| >= 1
    modifies world`now, world`wall, world`log
    ensures old(world.now) <= world.now && old(world.wall) <= world.wall
    ensures |world.log| == |old(world.log)| + 1 && world.log[..|old(world.log)|] == old(world.log)
    ensures var e := world.log[|old(world.log)|];
            && e.SpaceExchange? && e.tokens == spacetokens
            && (ret == 0 || ret == -1) && (ret == 0 <==> Metadata(e.spaceReply, |spacetokens|).Some?)
            && (ret == 0 ==> spaces[..] == Metadata(e.spaceReply, |spacetokens|).value)
            && (ret == 0 <==> Proper(e.spaceReply, |spacetokens|))
  {
    spaces := new SpaceMd[0];
    var rep := world.CallGetSpaceMetaData(spacetokens);
    if rep.SpaceFault? || rep.SpaceNoBody? || rep.status == None || rep.status.value != SrmSuccess
       || rep.spaces == None || |rep.spaces.value| < 1 {
      return -1, spaces;
    }
    var n := |spacetokens|;
    var data := rep.spaces.value;
    spaces := new SpaceMd[n](_ => BLANK_SPACE);
    for i := 0 to n
      modifies spaces
      invariant forall k :: 0 <= k < i ==> !Refused(data[k]) && spaces[k] == MdOf(data[k])
      invariant forall k :: i <= k < n ==> spaces[k] == BLANK_SPACE
    {
      if data[i] == None || data[i].value.spaceToken == None {
        continue;
      }
      var raw := data[i].value;
      if raw.status.Some? && raw.status.value != SrmSuccess {
        assert Refused(data[i]);
        return -1, spaces;
      }
      var md := CopyMd(raw);
      spaces[i] := md;
    }
    ret := 0;
  }

  // The loop of srmv2_getbestspacetoken
  method FindBest(spaces: array<SpaceMd>, needed: int) returns (numtoken: int)
    ensures numtoken == -1 || IsBest(spaces[..], needed, numtoken)
    ensures numtoken >= 0 ==>
              && numtoken < spaces.Length && spaces[numtoken].unusedSize >= needed + 1_048_576
              && forall j :: 0 <= j < spaces.Length && spaces[j].unusedSize >= needed + 1_048_576 ==>
                   && spaces[numtoken].unusedSize <= spaces[j].unusedSize
                   && (j < numtoken ==> spaces[numtoken].unusedSize < spaces[j].unusedSize)
    ensures numtoken == -1 ==> forall i :: 0 <= i < spaces.Length ==> spaces[i].unusedSize < needed + 1_048_576
  {
    numtoken := -1;
    var unusedSize := -1;
    for i := 0 to spaces.Length
      invariant numtoken == -1 || (IsBest(spaces[..i], needed, numtoken) && unusedSize == spaces[numtoken].unusedSize)
      invariant numtoken == -1 ==> forall k :: 0 <= k < i ==> !Fits(spaces[k], needed)
    {
      ghost var before, after := spaces[..i], spaces[..i + 1];
      assert after == before + [spaces[i]];
      if spaces[i].unusedSize < needed + SIZE_MARGIN {
        continue;
      }
      if numtoken < 0 || spaces[i].unusedSize < unusedSize {
        numtoken := i;
        unusedSize := spaces[i].unusedSize;
      }
    }
    assert spaces[..spaces.Length] == spaces[..];
  }

  // srmv2_getbestspacetoken
  method GetBestSpaceToken(world: World, desc: string, needed: int)
    returns (token: Option<string>, ghost lookup: seq<Event>)
    requires needed + SIZE_MARGIN < TWO_63
    modifies world`now, world`wall, world`log
    ensures old(world.now) <= world.now && old(world.wall) <= world.wall
    ensures world.log == old(world.log) + lookup
    ensures Chooses(lookup, desc, needed, token)
  {
    var ret, spacetokens := GetSpaceTokens(world, desc);
    lookup := world.log[|old(world.log)|..];
    if ret < 0 {
      return None, lookup;
    }
    if spacetokens.Length == 1 {
      return Some(spacetokens[0]), lookup;
    }
    var spaces;
    ret, spaces := GetSpaceMd(world, spacetokens[..]);
    lookup := world.log[|old(world.log)|..];
    if ret < 0 {
      return None, lookup;
    }
    var numtoken := FindBest(spaces, needed);
    if numtoken < 0 {
      return None, lookup;
    }
    assert Fits(spaces[..][numtoken], needed);
    return spaces[numtoken].token, lookup;
  }
}
