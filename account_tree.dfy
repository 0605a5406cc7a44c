/*
 * The bank account store of hw3/accountSearchTree.c: an unbalanced binary search
 * tree of account_t nodes hanging from the global root, keyed by account number.
 * Numbers greater than a node's go right, all others (equal ones included) go
 * left, and a new account always becomes a leaf.
 *
 * The heap nodes are described by a ghost Tree that records, node by node, the
 * object, its number and balance, and the two subtrees.
 */
module AccountSearchTree {

  /* The number and balance an account_t carries. */
  datatype Acct = Acct(number: int, balance: int)

  /* account_t: the key, the balance and the two child links (the mutex is not
     modelled). */
  class Account {
    var number: int
    var balance: int
    var left: Account?
    var right: Account?

    /* The node addAccount allocates: the given number and balance, no children. */
    constructor (number: int, balance: int)
      ensures this.number == number && this.balance == balance && left == null && right == null
    {
      this.number, this.balance := number, balance;
      left, right := null, null;
    }
  }

  /* ---------------------------------------------------------------------------
   * The tree as a value.
   * ------------------------------------------------------------------------- */

  datatype Tree = Nil | Node(left: Tree, obj: Account, acct: Acct, right: Tree)

  /* The nodes of the tree. */
  ghost function Objects(t: Tree): set<Account> {
    match t
    case Nil => {}
    case Node(l, o, _, r) => Objects(l) + {o} + Objects(r)
  }

  /* No node object occurs twice, so the tree has no sharing and no cycle. */
  ghost predicate Distinct(t: Tree) {
    match t
    case Nil => true
    case Node(l, o, _, r) =>
      && o !in Objects(l) && o !in Objects(r) && Objects(l) !! Objects(r)
      && Distinct(l) && Distinct(r)
  }

  /* The accounts in in-order: left subtree, the node, right subtree. */
  function InOrder(t: Tree): seq<Acct> {
    match t
    case Nil => []
    case Node(l, _, a, r) => InOrder(l) + [a] + InOrder(r)
  }

  /* Every number in s is at most n. */
  predicate AllAtMost(s: seq<Acct>, n: int) {
    forall x :: x in s ==> x.number <= n
  }

  /* Every number in s is greater than n. */
  predicate AllAbove(s: seq<Acct>, n: int) {
    forall x :: x in s ==> x.number > n
  }

  /* The search-tree order: every number on the left is at most the node's, every
     number on the right is greater. */
  predicate Ordered(t: Tree) {
    match t
    case Nil => true
    case Node(l, _, a, r) =>
      && AllAtMost(InOrder(l), a.number) && AllAbove(InOrder(r), a.number)
      && Ordered(l) && Ordered(r)
  }

  /* Numbers never decrease along s. */
  predicate NonDecreasing(s: seq<Acct>) {
    forall i, j :: 0 <= i < j < |s| ==> s[i].number <= s[j].number
  }

  /* _insertAccountInTree on the value: go right on a greater number, left
     otherwise, and hang the new node on the first empty child. */
  function Insert(t: Tree, o: Account, a: Acct): Tree {
    match t
    case Nil => Node(Nil, o, a, Nil)
    case Node(l, p, b, r) =>
      if a.number > b.number then Node(l, p, b, Insert(r, o, a)) else Node(Insert(l, o, a), p, b, r)
  }

  /* The tree without the leaf holding object o. */
  function Prune(t: Tree, o: Account): Tree {
    match t
    case Nil => Nil
    case Node(l, p, a, r) =>
      if p == o && l == Nil && r == Nil then Nil else Node(Prune(l, o), p, a, Prune(r, o))
  }

  /* An in-order traversal of a search tree lists the numbers in non-decreasing
     order. */
  lemma {:induction false} OrderedInOrder(t: Tree)
    requires Ordered(t)
    ensures NonDecreasing(InOrder(t))
  {
    match t
    case Nil =>
    case Node(l, _, a, r) =>
      OrderedInOrder(l);
      OrderedInOrder(r);
      var s, sl, sr := InOrder(t), InOrder(l), InOrder(r);
      forall i, j | 0 <= i < j < |s|
        ensures s[i].number <= s[j].number
      {
        if j < |sl| {
          assert s[i] == sl[i] && s[j] == sl[j];
        } else if i < |sl| {
          assert s[i] == sl[i] && s[i] in sl;
          if j > |sl| { assert s[j] == sr[j - |sl| - 1] && s[j] in sr; }
        } else if i == |sl| {
          assert s[j] == sr[j - |sl| - 1] && s[j] in sr;
        } else {
          assert s[i] == sr[i - |sl| - 1] && s[j] == sr[j - |sl| - 1];
        }
      }
  }

  /* The accounts of a tree, counted with multiplicity. */
  ghost function Holdings(t: Tree): multiset<Acct> {
    match t
    case Nil => multiset{}
    case Node(l, _, a, r) => Holdings(l) + multiset{a} + Holdings(r)
  }

  /* The traversal lists every account of the tree exactly as often as it occurs. */
  lemma {:induction false} InOrderHoldings(t: Tree)
    ensures multiset(InOrder(t)) == Holdings(t)
  {
    match t
    case Nil =>
    case Node(l, _, a, r) =>
      InOrderHoldings(l);
      InOrderHoldings(r);
      assert InOrder(t) == InOrder(l) + [a] + InOrder(r);
  }

  /* Insertion adds exactly the new account to the tree's accounts. */
  lemma {:induction false} InsertHoldings(t: Tree, o: Account, a: Acct)
    ensures Holdings(Insert(t, o, a)) == Holdings(t) + multiset{a}
  {
    match t
    case Nil =>
    case Node(l, p, b, r) =>
      if a.number > b.number { InsertHoldings(r, o, a); } else { InsertHoldings(l, o, a); }
  }

  /* Insertion adds exactly the new account to what the traversal lists. */
  lemma InsertContents(t: Tree, o: Account, a: Acct)
    ensures multiset(InOrder(Insert(t, o, a))) == multiset(InOrder(t)) + multiset{a}
  {
    InsertHoldings(t, o, a);
    InOrderHoldings(t);
    InOrderHoldings(Insert(t, o, a));
  }

  /* Insertion adds exactly the new object to the nodes. */
  lemma {:induction false} InsertObjects(t: Tree, o: Account, a: Acct)
    ensures Objects(Insert(t, o, a)) == Objects(t) + {o}
  {
    match t
    case Nil =>
    case Node(l, p, b, r) =>
      if a.number > b.number { InsertObjects(r, o, a); } else { InsertObjects(l, o, a); }
  }

  /* Inserting an account above n keeps every number of the subtree above n. */
  lemma InsertAbove(t: Tree, o: Account, a: Acct, n: int)
    requires AllAbove(InOrder(t), n) && a.number > n
    ensures AllAbove(InOrder(Insert(t, o, a)), n)
  {
    InsertContents(t, o, a);
    forall x | x in InOrder(Insert(t, o, a))
      ensures x.number > n
    {
      assert x in multiset(InOrder(Insert(t, o, a)));
    }
  }

  /* Inserting an account at most n keeps every number of the subtree at most n. */
  lemma InsertAtMost(t: Tree, o: Account, a: Acct, n: int)
    requires AllAtMost(InOrder(t), n) && a.number <= n
    ensures AllAtMost(InOrder(Insert(t, o, a)), n)
  {
    InsertContents(t, o, a);
    forall x | x in InOrder(Insert(t, o, a))
      ensures x.number <= n
    {
      assert x in multiset(InOrder(Insert(t, o, a)));
    }
  }

  /* Insertion keeps the search-tree order. */
  lemma {:induction false} InsertOrdered(t: Tree, o: Account, a: Acct)
    requires Ordered(t)
    ensures Ordered(Insert(t, o, a))
  {
    match t
    case Nil =>
    case Node(l, p, b, r) =>
      if a.number > b.number {
        InsertOrdered(r, o, a);
        InsertAbove(r, o, a, b.number);
        assert Insert(t, o, a) == Node(l, p, b, Insert(r, o, a));
      } else {
        InsertOrdered(l, o, a);
        InsertAtMost(l, o, a, b.number);
        assert Insert(t, o, a) == Node(Insert(l, o, a), p, b, r);
      }
  }

  /* A new object keeps the nodes distinct. */
  lemma {:induction false} InsertDistinct(t: Tree, o: Account, a: Acct)
    requires Distinct(t) && o !in Objects(t)
    ensures Distinct(Insert(t, o, a))
  {
    match t
    case Nil =>
    case Node(l, p, b, r) =>
      InsertObjects(l, o, a);
      InsertObjects(r, o, a);
      if a.number > b.number { InsertDistinct(r, o, a); } else { InsertDistinct(l, o, a); }
  }

  /* Pruning an object that is not in the tree changes nothing. */
  lemma {:induction false} PruneAbsent(t: Tree, o: Account)
    requires o !in Objects(t)
    ensures Prune(t, o) == t
  {
    match t
    case Nil =>
    case Node(l, p, a, r) =>
      PruneAbsent(l, o);
      PruneAbsent(r, o);
  }

  /* Insertion adds one leaf and touches nothing else: the new object is in the
     tree, and taking its leaf away gives back the old tree exactly. */
  lemma {:induction false} InsertAddsLeaf(t: Tree, o: Account, a: Acct)
    requires o !in Objects(t)
    ensures o in Objects(Insert(t, o, a)) && Prune(Insert(t, o, a), o) == t
    ensures |InOrder(Insert(t, o, a))| == |InOrder(t)| + 1
  {
    InsertContents(t, o, a);
    InsertObjects(t, o, a);
    match t
    case Nil =>
    case Node(l, p, b, r) =>
      assert p != o;
      if a.number > b.number {
        InsertAddsLeaf(r, o, a);
        PruneAbsent(l, o);
      } else {
        InsertAddsLeaf(l, o, a);
        PruneAbsent(r, o);
      }
  }

  /* ---------------------------------------------------------------------------
   * The tree in the heap.
   * ------------------------------------------------------------------------- */

  /* Every node of a tree value is an allocated object. */
  lemma {:induction false} ObjectsAllocated(t: Tree)
    ensures forall o :: o in Objects(t) ==> allocated(o)
  {
    match t
    case Nil =>
    case Node(l, _, _, r) =>
      ObjectsAllocated(l);
      ObjectsAllocated(r);
  }

  /* The nodes reachable from p are those of t, with t's numbers, balances and
     shape. */
  ghost predicate Mirrors(t: Tree, p: Account?)
    reads Objects(t)
  {
    match t
    case Nil => p == null
    case Node(l, o, a, r) =>
      && p == o && o.number == a.number && o.balance == a.balance
      && Mirrors(l, o.left) && Mirrors(r, o.right)
  }

  /* _insertAccountInTree(root, node): descend from the non-empty subtree at r and
     attach node, a childless node outside the tree, at the first empty child. */
  method InsertAccountInTree(r: Account, node: Account, ghost t: Tree)
    requires Mirrors(t, r) && Distinct(t) && node !in Objects(t)
    requires node.left == null && node.right == null
    modifies Objects(t)
    ensures Mirrors(Insert(t, node, Acct(node.number, node.balance)), r)
    decreases t
  {
    ObjectsAllocated(t);
    var a := Acct(node.number, node.balance);
    ghost var l, b, rt := t.left, t.acct, t.right;
    if node.number > r.number {
      if r.right == null {
        r.right := node;
        assert Mirrors(Node(Nil, node, a, Nil), r.right);
      } else {
        InsertAccountInTree(r.right, node, rt);
      }
      assert Mirrors(l, r.left);
      assert Insert(t, node, a) == Node(l, r, b, Insert(rt, node, a));
    } else {
      if r.left == null {
        r.left := node;
        assert Mirrors(Node(Nil, node, a, Nil), r.left);
      } else {
        InsertAccountInTree(r.left, node, l);
      }
      assert Mirrors(rt, r.right);
      assert Insert(t, node, a) == Node(Insert(l, node, a), r, b, rt);
    }
  }

  /* _printInOrderContents(root): the accounts printed, in print order. */
  method PrintInOrderContents(p: Account?, ghost t: Tree) returns (shown: seq<Acct>)
    requires Mirrors(t, p)
    ensures shown == InOrder(t)
    decreases t
  {
    if p == null {
      return [];
    }
    var right := p.right;
    ObjectsAllocated(t.right);
    assert Mirrors(t.right, right);
    var before := PrintInOrderContents(p.left, t.left);
    var after := PrintInOrderContents(right, t.right);
    shown := before + [Acct(p.number, p.balance)] + after;
  }

  /* The global root and the tree it holds. */
  class Accounts {
    var root: Account?
    ghost var tree: Tree

    ghost predicate Valid()
      reads this, Objects(tree)
    {
      Mirrors(tree, root) && Distinct(tree) && Ordered(tree)
    }

    /* The global at program start: root NULL. */
    constructor ()
      ensures Valid() && tree == Nil
    {
      root := null;
      tree := Nil;
    }

    /* initAccountTree: root = NULL, which empties the tree (the old nodes are not
       freed). */
    method InitAccountTree()
      modifies this
      ensures Valid() && tree == Nil && root == null
    {
      root := null;
      tree := Nil;
    }

    /* addAccount: a fresh node with the given number and balance becomes the root
       of an empty tree (status 0) or a new leaf of a non-empty one (status -1). */
    method AddAccount(number: int, balance: int) returns (status: int, ghost node: Account)
      requires Valid()
      modifies this, Objects(tree)
      ensures Valid() && fresh(node)
      ensures tree == Insert(old(tree), node, Acct(number, balance))
      ensures status == (if old(tree) == Nil then 0 else -1)
    {
      ObjectsAllocated(tree);
      var created := new Account(number, balance);
      node := created;
      if root == null {
        root := created;
        tree := Node(Nil, created, Acct(number, balance), Nil);
        return 0, node;
      }
      InsertAccountInTree(root, created, tree);
      InsertOrdered(tree, created, Acct(number, balance));
      InsertDistinct(tree, created, Acct(number, balance));
      tree := Insert(tree, created, Acct(number, balance));
      status := -1;
    }

    /* accountTransaction: a stub that fails every transfer and changes nothing. */
    method AccountTransaction(src: int, dst: int, value: int) returns (status: int)
      ensures status == -1
    {
      status := -1;
    }

    /* printAccountContents: the accounts in in-order, which for a tree built by
       addAccount is non-decreasing by number. */
    method PrintAccountContents() returns (shown: seq<Acct>)
      requires Valid()
      ensures shown == InOrder(tree) && NonDecreasing(shown)
    {
      OrderedInOrder(tree);
      shown := PrintInOrderContents(root, tree);
    }
  }
}
