/** The registered servers and the filter that picks those meeting the placement
    constraints of a partition. */
module Peers {
  import opened Schema

  datatype Server = Server(sqlAddr: string, grpcAddr: string, region: string)

  /** Keys other than the three recognised ones constrain nothing. */
  predicate Meets(server: Server, key: string, value: string) {
    && (key == "sql_address" ==> server.sqlAddr == value)
    && (key == "rpc_address" ==> server.grpcAddr == value)
    && (key == "region" ==> server.region == value)
  }

  predicate Eligible(server: Server, constraints: map<string, string>) {
    forall key :: key in constraints ==> Meets(server, key, constraints[key])
  }

  /** Three keys are recognised, each for one attribute of a server. */
  lemma EligibleMeans(server: Server, constraints: map<string, string>)
    ensures Eligible(server, constraints) <==>
            && ("sql_address" in constraints ==> constraints["sql_address"] == server.sqlAddr)
            && ("rpc_address" in constraints ==> constraints["rpc_address"] == server.grpcAddr)
            && ("region" in constraints ==> constraints["region"] == server.region)
  {
    if "sql_address" in constraints && constraints["sql_address"] != server.sqlAddr {
      assert !Meets(server, "sql_address", constraints["sql_address"]);
    }
    if "rpc_address" in constraints && constraints["rpc_address"] != server.grpcAddr {
      assert !Meets(server, "rpc_address", constraints["rpc_address"]);
    }
    if "region" in constraints && constraints["region"] != server.region {
      assert !Meets(server, "region", constraints["region"]);
    }
  }

  function EligibleServers(servers: seq<Server>, constraints: map<string, string>): (result: seq<Server>)
    ensures |result| <= |servers|
  {
    if servers == [] then []
    else
      var before := EligibleServers(servers[..|servers| - 1], constraints);
      if Eligible(servers[|servers| - 1], constraints) then before + [servers[|servers| - 1]] else before
  }

  /** Exactly the servers that meet every constraint are picked. */
  lemma {:induction false} PickedAreEligible(servers: seq<Server>, constraints: map<string, string>)
    ensures forall s :: s in EligibleServers(servers, constraints) <==> s in servers && Eligible(s, constraints)
  {
    hide Eligible;
    if servers != [] {
      var n := |servers| - 1;
      PickedAreEligible(servers[..n], constraints);
      assert servers == servers[..n] + [servers[n]];
    }
  }

  lemma OneMoreServer(servers: seq<Server>, constraints: map<string, string>, last: Server)
    ensures EligibleServers(servers + [last], constraints) ==
            EligibleServers(servers, constraints) + if Eligible(last, constraints) then [last] else []
  {
    assert (servers + [last])[..|servers|] == servers;
  }

  lemma NonePicked(servers: seq<Server>, constraints: map<string, string>)
    ensures EligibleServers(servers, constraints) == [] <==> forall s :: s in servers ==> !Eligible(s, constraints)
  {
    hide Eligible, EligibleServers;
    PickedAreEligible(servers, constraints);
    var picked := EligibleServers(servers, constraints);
    if picked != [] {
      assert picked[0] in picked;
    }
  }

  /** Exactly one server is picked when one registration alone is eligible; a
      server that registered twice counts twice. */
  lemma {:induction false} OnePicked(servers: seq<Server>, constraints: map<string, string>, server: Server)
    ensures EligibleServers(servers, constraints) == [server] <==>
            exists i :: OnlyEligible(servers, constraints, i) && servers[i] == server
  {
    hide Eligible, EligibleServers;
    if servers == [] {
      NonePicked(servers, constraints);
    } else {
      var n := |servers| - 1;
      var init, last := servers[..n], servers[n];
      assert servers == init + [last];
      OneMoreServer(init, constraints, last);
      OnePicked(init, constraints, server);
      NonePicked(init, constraints);
      assert forall j :: 0 <= j < n ==> init[j] in init;
      if Eligible(last, constraints) {
        assert EligibleServers(init, constraints) == [] ==> OnlyEligible(servers, constraints, n);
        assert OnlyEligible(servers, constraints, n) ==> EligibleServers(init, constraints) == [];
        assert forall i :: OnlyEligible(servers, constraints, i) ==> i == n;
        var before := EligibleServers(init, constraints);
        assert EligibleServers(servers, constraints) == before + [last];
        assert (before + [last])[|before|] == last;
        assert before + [last] == [server] ==> |before| == 0;
        assert before == [] ==> before + [last] == [last];
      } else {
        assert EligibleServers(servers, constraints) == EligibleServers(init, constraints);
        assert forall i :: OnlyEligible(servers, constraints, i) <==> OnlyEligible(init, constraints, i);
      }
    }
  }

  ghost predicate OnlyEligible(servers: seq<Server>, constraints: map<string, string>, i: int) {
    0 <= i < |servers| && forall j :: 0 <= j < |servers| ==> (Eligible(servers[j], constraints) <==> i == j)
  }

  /** A further constraint filters what was picked before: it never makes a
      server eligible, and an unrecognised key changes nothing. */
  lemma {:induction false} MoreConstraintsFilter(
      servers: seq<Server>, constraints: map<string, string>, key: string, value: string)
    requires key !in constraints
    ensures EligibleServers(servers, constraints[key := value]) ==
            EligibleServers(EligibleServers(servers, constraints), map[key := value])
    ensures key !in {"sql_address", "rpc_address", "region"} ==>
              EligibleServers(servers, constraints[key := value]) == EligibleServers(servers, constraints)
  {
    hide Eligible;
    if servers != [] {
      var n := |servers| - 1;
      var last, before := servers[n], EligibleServers(servers[..n], constraints);
      MoreConstraintsFilter(servers[..n], constraints, key, value);
      OneMoreConstraint(last, constraints, key, value);
      OneMoreServer(before, map[key := value], last);
    }
  }

  lemma OneMoreConstraint(server: Server, constraints: map<string, string>, key: string, value: string)
    requires key !in constraints
    ensures Eligible(server, constraints[key := value]) <==>
            Eligible(server, constraints) && Eligible(server, map[key := value])
    ensures key !in {"sql_address", "rpc_address", "region"} ==> Eligible(server, map[key := value])
  {
    var more, one := constraints[key := value], map[key := value];
    assert more[key] == one[key] == value;
    assert forall k :: k in constraints ==> more[k] == constraints[k];
    assert key !in {"sql_address", "rpc_address", "region"} ==> Meets(server, key, value);
    if Eligible(server, more) {
      assert Meets(server, key, more[key]);
      assert forall k :: k in constraints ==> Meets(server, k, more[k]);
    }
    if Eligible(server, one) {
      assert Meets(server, key, one[key]);
    }
  }

  class Registry {
    var peers: seq<Server>

    constructor ()
      ensures peers == []
    {
      peers := [];
    }

    method Add(server: Server)
      modifies this
      ensures peers == old(peers) + [server]
    {
      peers := peers + [server];
    }

    method GetServers(constraints: map<string, string>) returns (result: seq<Server>)
      ensures result == EligibleServers(peers, constraints)
    {
      result := [];
      for i := 0 to |peers|
        invariant result == EligibleServers(peers[..i], constraints)
      {
        var server, ok, ahead := peers[i], true, constraints.Keys;
        while ahead != {}
          invariant ahead <= constraints.Keys && ok
          invariant forall key :: key in constraints.Keys - ahead ==> Meets(server, key, constraints[key])
        {
          var key :| key in ahead;
          if key == "sql_address" && server.sqlAddr != constraints[key] {
            ok := false;
            break;
          } else if key == "rpc_address" && server.grpcAddr != constraints[key] {
            ok := false;
            break;
          } else if key == "region" && server.region != constraints[key] {
            ok := false;
            break;
          }
          ahead := ahead - {key};
        }
        assert ok <==> Eligible(server, constraints);
        assert peers[..i + 1][..i] == peers[..i];
        if ok {
          result := result + [server];
        }
      }
      assert peers[..|peers|] == peers;
    }
  }
}
