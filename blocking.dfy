/** The blocker of `merge_table`: both tables are split by state over a fixed
    list of states, each state's rows are inner-joined on the normalized
    address, and the per-state results are concatenated in list order. */
module Blocking {
  import opened Records

  /** The states that `merge_table` blocks on, in its concatenation order. */
  const States: seq<string> := ["PA", "FL", "MO", "TN", "IN"]

  /** A row of the merged table: the columns of a left row and of a right row
      (suffixed `_x` and `_y` by pandas) that share their address. */
  datatype Candidate = Candidate(left: LeftRow, right: RightRow)

  predicate Distinct(states: seq<string>) {
    forall i, j :: 0 <= i < j < |states| ==> states[i] != states[j]
  }

  /** `left_df[left_df["state"] == state]`. */
  function LeftInState(rows: seq<LeftRow>, state: string): (r: seq<LeftRow>)
    ensures |r| <= |rows|
  {
    if rows == [] then []
    else (if rows[0].state == state then [rows[0]] else []) + LeftInState(rows[1..], state)
  }

  /** `right_df[right_df["state"] == state]`: the same mask as `LeftInState`,
      on the other table's row type, as the source repeats it for both sides. */
  function RightInState(rows: seq<RightRow>, state: string): (r: seq<RightRow>)
    ensures |r| <= |rows|
  {
    if rows == [] then []
    else (if rows[0].state == state then [rows[0]] else []) + RightInState(rows[1..], state)
  }

  /** The right rows that have address `address`, paired with `l`, in right-row order. */
  function PairsWith(l: LeftRow, rs: seq<RightRow>): seq<Candidate>
  {
    if rs == [] then []
    else
      (if rs[0].address == l.address then [Candidate(l, rs[0])] else []) + PairsWith(l, rs[1..])
  }

  /** `pd.merge(ls, rs, on address, how="inner")`: for each left row in order,
      every right row with the same address. */
  function Join(ls: seq<LeftRow>, rs: seq<RightRow>): seq<Candidate>
  {
    if ls == [] then [] else PairsWith(ls[0], rs) + Join(ls[1..], rs)
  }

  /** The merge of one state. */
  function Block(ls: seq<LeftRow>, rs: seq<RightRow>, state: string): seq<Candidate> {
    Join(LeftInState(ls, state), RightInState(rs, state))
  }

  /** The per-state merges concatenated in the order of `states`. */
  function Merge(ls: seq<LeftRow>, rs: seq<RightRow>, states: seq<string>): seq<Candidate>
  {
    if states == [] then [] else Block(ls, rs, states[0]) + Merge(ls, rs, states[1..])
  }

  /** `merge_table`. */
  function MergeTable(ls: seq<LeftRow>, rs: seq<RightRow>): seq<Candidate> {
    Merge(ls, rs, States)
  }

  // ---------------------------------------------------------------------------
  // Membership: exactly the same-state, same-address pairs of listed states.
  // ---------------------------------------------------------------------------

  lemma {:induction false} LeftInStateMembers(rows: seq<LeftRow>, state: string, x: LeftRow)
    ensures x in LeftInState(rows, state) <==> x in rows && x.state == state
  {
    if rows != [] {
      LeftInStateMembers(rows[1..], state, x);
      assert rows == [rows[0]] + rows[1..];
    }
  }

  lemma {:induction false} RightInStateMembers(rows: seq<RightRow>, state: string, x: RightRow)
    ensures x in RightInState(rows, state) <==> x in rows && x.state == state
  {
    if rows != [] {
      RightInStateMembers(rows[1..], state, x);
      assert rows == [rows[0]] + rows[1..];
    }
  }

  lemma {:induction false} PairsWithMembers(l: LeftRow, rs: seq<RightRow>, c: Candidate)
    ensures c in PairsWith(l, rs) <==> c.left == l && c.right in rs && c.right.address == l.address
  {
    if rs != [] {
      PairsWithMembers(l, rs[1..], c);
      assert rs == [rs[0]] + rs[1..];
    }
  }

  lemma {:induction false} JoinMembers(ls: seq<LeftRow>, rs: seq<RightRow>, c: Candidate)
    ensures c in Join(ls, rs) <==> c.left in ls && c.right in rs && c.left.address == c.right.address
  {
    if ls != [] {
      JoinMembers(ls[1..], rs, c);
      PairsWithMembers(ls[0], rs, c);
      assert ls == [ls[0]] + ls[1..];
    }
  }

  lemma BlockMembers(ls: seq<LeftRow>, rs: seq<RightRow>, state: string, c: Candidate)
    ensures c in Block(ls, rs, state) <==>
      && c.left in ls && c.right in rs
      && c.left.state == state && c.right.state == state
      && c.left.address == c.right.address
  {
    JoinMembers(LeftInState(ls, state), RightInState(rs, state), c);
    LeftInStateMembers(ls, state, c.left);
    RightInStateMembers(rs, state, c.right);
  }

  /** A candidate is in the merge iff its left row and its right row come from
      the two tables, have the same state, that state is listed, and they have
      the same address.  Rows of any other state never appear. */
  lemma {:induction false} MergeMembers(ls: seq<LeftRow>, rs: seq<RightRow>, states: seq<string>, c: Candidate)
    ensures c in Merge(ls, rs, states) <==>
      && c.left in ls && c.right in rs
      && c.left.state == c.right.state && c.left.state in states
      && c.left.address == c.right.address
  {
    if states != [] {
      MergeMembers(ls, rs, states[1..], c);
      BlockMembers(ls, rs, states[0], c);
      assert states == [states[0]] + states[1..];
    }
  }

  // ---------------------------------------------------------------------------
  // Order: the output is grouped by state, in the order of `states`.
  // ---------------------------------------------------------------------------

  function IndexOf(states: seq<string>, s: string): (k: nat)
    requires s in states
    ensures k < |states| && states[k] == s
    ensures forall j :: 0 <= j < k ==> states[j] != s
  {
    if states[0] == s then 0 else 1 + IndexOf(states[1..], s)
  }

  /** The position of a candidate's state in the list of states. */
  predicate StatesInOrder(r: seq<Candidate>, states: seq<string>) {
    && (forall i :: 0 <= i < |r| ==> r[i].left.state in states)
    && (forall i, j :: 0 <= i < j < |r| ==> IndexOf(states, r[i].left.state) <= IndexOf(states, r[j].left.state))
  }

  lemma DistinctTail(states: seq<string>)
    requires states != [] && Distinct(states)
    ensures Distinct(states[1..]) && states[0] !in states[1..]
  {
    forall k | 0 <= k < |states| - 1 ensures states[1..][k] != states[0] {
      assert states[1..][k] == states[k + 1];
    }
  }

  /** Every candidate of a later state comes after every candidate of an earlier state. */
  lemma {:induction false} MergeGroupedByState(ls: seq<LeftRow>, rs: seq<RightRow>, states: seq<string>)
    requires Distinct(states)
    ensures StatesInOrder(Merge(ls, rs, states), states)
  {
    if states != [] {
      var rest := states[1..];
      DistinctTail(states);
      MergeGroupedByState(ls, rs, rest);
      var b := Block(ls, rs, states[0]);
      var m := Merge(ls, rs, rest);
      var r := Merge(ls, rs, states);
      assert r == b + m;
      forall i | 0 <= i < |r|
        ensures r[i].left.state in states
        ensures i < |b| ==> IndexOf(states, r[i].left.state) == 0
        ensures i >= |b| ==> IndexOf(states, r[i].left.state) == 1 + IndexOf(rest, m[i - |b|].left.state)
      {
        if i < |b| {
          BlockMembers(ls, rs, states[0], r[i]);
        } else {
          assert r[i] == m[i - |b|];
          assert m[i - |b|].left.state in rest;
        }
      }
    }
  }

  // ---------------------------------------------------------------------------
  // Cardinality.
  // ---------------------------------------------------------------------------

  /** The number of left rows with this state and address. */
  function CountLeft(ls: seq<LeftRow>, state: string, address: string): nat {
    if ls == [] then 0
    else (if ls[0].state == state && ls[0].address == address then 1 else 0) + CountLeft(ls[1..], state, address)
  }

  /** The number of right rows with this state and address. */
  function CountRight(rs: seq<RightRow>, state: string, address: string): nat {
    if rs == [] then 0
    else (if rs[0].state == state && rs[0].address == address then 1 else 0) + CountRight(rs[1..], state, address)
  }

  /** The number of right rows with this address. */
  function CountAddress(rs: seq<RightRow>, address: string): nat {
    if rs == [] then 0
    else (if rs[0].address == address then 1 else 0) + CountAddress(rs[1..], address)
  }

  /** The number of candidates whose left row has this state and address. */
  function GroupSize(cs: seq<Candidate>, state: string, address: string): nat {
    if cs == [] then 0
    else (if cs[0].left.state == state && cs[0].left.address == address then 1 else 0) + GroupSize(cs[1..], state, address)
  }

  lemma {:induction false} GroupSizeAppend(a: seq<Candidate>, b: seq<Candidate>, state: string, address: string)
    ensures GroupSize(a + b, state, address) == GroupSize(a, state, address) + GroupSize(b, state, address)
  {
    if a == [] {
      assert a + b == b;
    } else {
      assert (a + b)[1..] == a[1..] + b;
      GroupSizeAppend(a[1..], b, state, address);
    }
  }

  lemma {:induction false} PairsWithSize(l: LeftRow, rs: seq<RightRow>, state: string, address: string)
    ensures |PairsWith(l, rs)| == CountAddress(rs, l.address)
    ensures GroupSize(PairsWith(l, rs), state, address) ==
      if l.state == state && l.address == address then CountAddress(rs, address) else 0
  {
    if rs != [] {
      PairsWithSize(l, rs[1..], state, address);
      var head := if rs[0].address == l.address then [Candidate(l, rs[0])] else [];
      GroupSizeAppend(head, PairsWith(l, rs[1..]), state, address);
    }
  }

  lemma MulSucc(n: nat, c: nat)
    ensures (n + 1) * c == n * c + c
  {
  }

  /** Within a join, the group of an address is the product of the two sides' counts. */
  lemma {:induction false} JoinGroupSize(ls: seq<LeftRow>, rs: seq<RightRow>, state: string, address: string)
    ensures GroupSize(Join(ls, rs), state, address) == CountLeft(ls, state, address) * CountAddress(rs, address)
  {
    if ls != [] {
      JoinGroupSize(ls[1..], rs, state, address);
      PairsWithSize(ls[0], rs, state, address);
      GroupSizeAppend(PairsWith(ls[0], rs), Join(ls[1..], rs), state, address);
      MulSucc(CountLeft(ls[1..], state, address), CountAddress(rs, address));
    }
  }

  lemma {:induction false} CountLeftAppend(a: seq<LeftRow>, b: seq<LeftRow>, state: string, address: string)
    ensures CountLeft(a + b, state, address) == CountLeft(a, state, address) + CountLeft(b, state, address)
  {
    if a == [] {
      assert a + b == b;
    } else {
      assert (a + b)[1..] == a[1..] + b;
      CountLeftAppend(a[1..], b, state, address);
    }
  }

  lemma {:induction false} CountAddressAppend(a: seq<RightRow>, b: seq<RightRow>, address: string)
    ensures CountAddress(a + b, address) == CountAddress(a, address) + CountAddress(b, address)
  {
    if a == [] {
      assert a + b == b;
    } else {
      assert (a + b)[1..] == a[1..] + b;
      CountAddressAppend(a[1..], b, address);
    }
  }

  lemma {:induction false} CountLeftInState(ls: seq<LeftRow>, s0: string, state: string, address: string)
    ensures CountLeft(LeftInState(ls, s0), state, address) == if state == s0 then CountLeft(ls, state, address) else 0
  {
    if ls != [] {
      CountLeftInState(ls[1..], s0, state, address);
      var head := if ls[0].state == s0 then [ls[0]] else [];
      CountLeftAppend(head, LeftInState(ls[1..], s0), state, address);
    }
  }

  lemma {:induction false} CountAddressInState(rs: seq<RightRow>, s0: string, address: string)
    ensures CountAddress(RightInState(rs, s0), address) == CountRight(rs, s0, address)
  {
    if rs != [] {
      CountAddressInState(rs[1..], s0, address);
      var head := if rs[0].state == s0 then [rs[0]] else [];
      CountAddressAppend(head, RightInState(rs[1..], s0), address);
    }
  }

  /** The candidates of one state and one address: every left row of that state
      and address paired with every right row of that state and address, and no
      candidate at all for a state outside the list. */
  lemma {:induction false} MergeGroupSize(ls: seq<LeftRow>, rs: seq<RightRow>, states: seq<string>, state: string, address: string)
    requires Distinct(states)
    ensures GroupSize(Merge(ls, rs, states), state, address) ==
      if state in states then CountLeft(ls, state, address) * CountRight(rs, state, address) else 0
  {
    if states != [] {
      var rest := states[1..];
      DistinctTail(states);
      MergeGroupSize(ls, rs, rest, state, address);
      GroupSizeAppend(Block(ls, rs, states[0]), Merge(ls, rs, rest), state, address);
      JoinGroupSize(LeftInState(ls, states[0]), RightInState(rs, states[0]), state, address);
      CountLeftInState(ls, states[0], state, address);
      CountAddressInState(rs, states[0], address);
      DistinctTail(states);
    }
  }

  /** The left rows whose state is in the list. */
  function LeftInStates(ls: seq<LeftRow>, states: seq<string>): (r: seq<LeftRow>)
    ensures |r| <= |ls|
  {
    if ls == [] then []
    else (if ls[0].state in states then [ls[0]] else []) + LeftInStates(ls[1..], states)
  }

  lemma {:induction false} LeftInStatesCons(ls: seq<LeftRow>, s0: string, rest: seq<string>)
    requires s0 !in rest
    ensures |LeftInStates(ls, [s0] + rest)| == |LeftInState(ls, s0)| + |LeftInStates(ls, rest)|
  {
    if ls != [] {
      LeftInStatesCons(ls[1..], s0, rest);
    }
  }

  lemma {:induction false} JoinSize(ls: seq<LeftRow>, rs: seq<RightRow>)
    ensures |Join(ls, rs)| <= |ls| * |rs|
  {
    if ls != [] {
      JoinSize(ls[1..], rs);
      PairsWithSize(ls[0], rs, "", "");
      CountAddressBound(rs, ls[0].address);
      assert |ls| * |rs| == (|ls| - 1) * |rs| + |rs|;
    }
  }

  lemma {:induction false} CountAddressBound(rs: seq<RightRow>, address: string)
    ensures CountAddress(rs, address) <= |rs|
  {
    if rs != [] {
      CountAddressBound(rs[1..], address);
    }
  }

  lemma MulMono(a: nat, b: nat, c: nat)
    requires a <= b
    ensures a * c <= b * c && c * a <= c * b
  {
  }

  lemma MulDistrib(a: nat, b: nat, c: nat)
    ensures a * c + b * c == (a + b) * c
  {
  }

  /** The merge never exceeds the product of the number of left rows in the listed
      states and the number of right rows; in particular not the cross product. */
  lemma MergeSize(ls: seq<LeftRow>, rs: seq<RightRow>, states: seq<string>)
    requires Distinct(states)
    ensures |Merge(ls, rs, states)| <= |LeftInStates(ls, states)| * |rs|
    ensures |Merge(ls, rs, states)| <= |ls| * |rs|
  {
    MergeSizeInStates(ls, rs, states);
    MulMono(|LeftInStates(ls, states)|, |ls|, |rs|);
  }

  lemma {:induction false} MergeSizeInStates(ls: seq<LeftRow>, rs: seq<RightRow>, states: seq<string>)
    requires Distinct(states)
    ensures |Merge(ls, rs, states)| <= |LeftInStates(ls, states)| * |rs|
  {
    if states == [] {
      assert Merge(ls, rs, states) == [];
      MulMono(0, |LeftInStates(ls, states)|, |rs|);
    } else {
      var rest := states[1..];
      DistinctTail(states);
      MergeSizeInStates(ls, rs, rest);
      var l0 := LeftInState(ls, states[0]);
      var r0 := RightInState(rs, states[0]);
      JoinSize(l0, r0);
      assert states == [states[0]] + rest;
      LeftInStatesCons(ls, states[0], rest);
      MergeCons(ls, rs, states);
      SizeStep(|Merge(ls, rs, states)|, |Block(ls, rs, states[0])|, |Merge(ls, rs, rest)|,
               |LeftInStates(ls, states)|, |l0|, |LeftInStates(ls, rest)|, |r0|, |rs|);
    }
  }

  lemma MergeCons(ls: seq<LeftRow>, rs: seq<RightRow>, states: seq<string>)
    requires states != []
    ensures |Merge(ls, rs, states)| == |Block(ls, rs, states[0])| + |Merge(ls, rs, states[1..])|
  {
  }

  /** The arithmetic of one step of `MergeSize`. */
  lemma SizeStep(x: nat, x0: nat, y: nat, l: nat, l0: nat, lr: nat, r0: nat, r: nat)
    requires x == x0 + y && x0 <= l0 * r0 && r0 <= r && y <= lr * r && l == l0 + lr
    ensures x <= l * r
  {
    MulMono(r0, r, l0);
    MulDistrib(l0, lr, r);
  }

  lemma StatesAreDistinct()
    ensures Distinct(States)
  {
  }

  /** `merge_table` with its five hard-coded states: pairs only rows of PA, FL,
      MO, TN or IN, grouped in that order, and never more than the cross product. */
  lemma MergeTableShape(ls: seq<LeftRow>, rs: seq<RightRow>)
    ensures StatesInOrder(MergeTable(ls, rs), States)
    ensures |MergeTable(ls, rs)| <= |ls| * |rs|
    ensures forall i :: 0 <= i < |MergeTable(ls, rs)| ==>
      MergeTable(ls, rs)[i].left.state in {"PA", "FL", "MO", "TN", "IN"}
  {
    StatesAreDistinct();
    MergeGroupedByState(ls, rs, States);
    MergeSize(ls, rs, States);
  }
}
