# Verification of depthcharge's trickiest logic

A Dafny model of seven pieces of the depthcharge boot loader and of its
configuration tool, with proofs of what each of them is for. The command
`dafny verify dfyconfig.toml` checks the whole project.

**Kconfig expressions** (`KconfigExpr`, `KconfigTransform`, `KconfigJoin`,
`KconfigSlots`, `KconfigProgress`, `KconfigDups`, `KconfigPairs`, `KconfigReflexive`,
`KconfigSpines`, `KconfigOpposites`, `KconfigMenu`). The simplifier of `util/kconfig/expr.c` works on a
three-valued logic and rewrites trees in place, through pointers that may designate the
same node. A pointer into a tree is modelled as the path to the child it designates, so
that two pointers can overlap as they do in the C code; the rewriting functions are
methods of a class that holds the tree and the global counter, proved against functions
on values. Expressions are built from symbols, NOT, EQUAL, UNEQUAL, AND and OR. A
valuation is well formed when it is what symbol calculation leaves behind
(`util/kconfig/symbol.c:382-383`, `760-782`, `798-837`): booleans are never m, a logical
symbol's text names its value, different constants have different texts. The central
results: `expr_transform` is exact, `expr_eq` is sound, and without constants inside it
recognises every reordering and regrouping of operands, `expr_eliminate_dups`
terminates, only ever sharpens m and leaves its own result alone, and `menu_finalize`
moves an entry below another only if its visibility implies the other's.

**uIP** (`UipTcp`, `Checksum`). The TCP paths of `uip_process` for one connection, with
sequence numbers as four bytes and an 8-bit timer, and a nondeterministic application
and network (RFC 793, section 3.9): in-order delivery over any run, exactly what the
application is told and when, and the exact time to live of a connection that nobody
answers. The checksums (RFC 1071, section 2) on whole packets.

**Flattened device tree** (`CStrings`, `FdtFormat`, `FdtRead`, `FdtTree`, `FdtFrame`,
`FdtWrite`, `FdtWhole`, `FdtAgain`). Parser and printer over a byte buffer (Devicetree
Specification v0.4, sections 5.2 to 5.5): for any buffer, skipping is unflattening
without the result; and flattening followed by unflattening gives the tree back, also
for a tree that came from another blob.

**Memory map** (`RangeSet`, `Ranges`, `MemoryMap`, `MemoryOrder`, `RegProperty`,
`FitMemory`). The linked list of edges of `src/base/ranges.c` as a heap structure, the
loop of `update_memory` over the e820 map, the splitting of ranges into cells, and what
a kernel decodes from the result.

**TFTP** (`Tftp`). The receiver (RFC 1350, sections 2, 5 and 6) against servers whose
datagrams may be lost, repeated and reordered.

**FWDB** (`Fwdb`). The append-only store in a raw buffer as an insert-only map.

**Configuration file** (`Escape`, `MenuWalk`). Quoting and unquoting of strings in
buffers, and the walk over the menu tree without a stack.

`Machine` holds machine integers: they are ranges of `int`, and every wrap-around that
matters is written out.

Where code and comments disagree the model follows the code: the comment at
`util/kconfig/expr.c:484` names the wrong result of a rule whose code is right; the
comment at `src/net/uip.c:292` is true only of the protocols the function is called for.
Against RFC 1350, section 6, the TFTP client never acknowledges the last block: after
success the loop repeats its previous packet (`Tftp.LastBlockUnacknowledged`).

## Model

| member | source | states |
|---|---|---|
| KconfigExpr.EliminateYnSound | util/kconfig/expr.c:231-312 | Constant elimination keeps the value of every tree under every well-formed valuation. |
| KconfigExpr.EliminateYnNormalises | util/kconfig/expr.c:231-312 | Its result has no y or n under an operator, it never grows a tree, and it leaves a tree alone exactly when there was nothing to eliminate. |
| KconfigExpr.ExprEqSound | util/kconfig/expr.c:189-229 | A nonzero answer of expr_eq means equal value under every well-formed valuation, through the mutual recursion with the elimination on copies. |
| KconfigReflexive.ExprEqReflexive | util/kconfig/expr.c:189-229 | Every expression of any shape is equal to itself: the pairwise cancellation on the two copies leaves one and the same constant. |
| KconfigSpines.ExprEqExactly | util/kconfig/expr.c:189-229 | Without y or n under an operator, expr_eq holds if and only if the trees are equal up to the order and the grouping of operands, at every level. |
| KconfigSpines.LeavesCancelExactly | util/kconfig/expr.c:130-162 | What __expr_eliminate_eq leaves of two such spines are their multiset differences. |
| KconfigSpines.ExprEqIsEquivalence | util/kconfig/expr.c:189-229 | On such trees it is reflexive, symmetric and transitive. |
| KconfigSpines.ExprEqReorders | util/kconfig/expr.c:189-229 | Swapped and regrouped operands are recognised. |
| KconfigSpines.NnfConstantFree | util/kconfig/expr.c:612-634 | Trees that were transformed and cleared of constants are of that kind. |
| KconfigSpines.ConstantsMatter | util/kconfig/expr.c:189-229 | With constants inside the relation is not even transitive: three concrete trees. |
| KconfigExpr.LeavesCancelOneValue | util/kconfig/expr.c:130-162 | Each cancellation takes one and the same value out of both trees: old_i = c op new_i with a common c; the spines stay. |
| KconfigExpr.EliminateEqSound | util/kconfig/expr.c:164-184 | Equal remainders mean equal originals, for trees of any shape; with one operator on both sides the originals are the remainders joined with one common value. |
| KconfigExpr.EliminateEqLeaves | util/kconfig/expr.c:130-162 | Neither tree grows when equal leaves are cancelled, which is what lets the mutual recursion with expr_eq terminate. |
| KconfigPairs.ExprPair.EliminateEqLeavesAt | util/kconfig/expr.c:130-162 | In place, through a pair of pointers into two trees: exactly the value-level elimination, nothing outside the two slots changes, and a count that did not move means nothing changed. |
| KconfigPairs.ExprPair.LeafPair | util/kconfig/expr.c:142-161 | Two leaves: equal constants y or n are left alone, other equal leaves are both replaced and counted. |
| KconfigPairs.ExprPair.EliminateEqAt | util/kconfig/expr.c:164-184 | expr_eliminate_eq in place computes the pair that EliminateEqSound is about. |
| KconfigPairs.ExprPair.ExtractEqAt | util/kconfig/expr.c:848-875 | expr_extract_eq in place: accumulator and both trees become what the value-level extraction says. |
| KconfigPairs.ExprPair.ExtractCommonAt | util/kconfig/expr.c:826-846 | expr_extract_eq_and and expr_extract_eq_or in place. |
| KconfigTransform.TransformExact | util/kconfig/expr.c:636-771 | expr_transform keeps the value exactly under every well-formed valuation, including the rewriting of comparisons of booleans. |
| KconfigTransform.TransformNnf | util/kconfig/expr.c:636-771 | It ends in negation normal form: NOT only over a symbol that is not y, m or n, and no boolean is compared with one of those. |
| KconfigTransform.TransformIdempotent | util/kconfig/expr.c:636-771 | It is idempotent, and the trees it leaves alone are exactly the normal forms. |
| KconfigTransform.TransformIsSigned | util/kconfig/expr.c:636-771 | It pushes every NOT down to the leaves and changes nothing else: for every tree, and for its negation, the result is that of one pass that carries the sign along. |
| KconfigTransform.DoubleNegation | util/kconfig/expr.c:697-705 | A NOT can be taken over what has been transformed, and two of them cancel, for every tree. |
| KconfigTransform.Transform | util/kconfig/expr.c:636-771 | The weight in which NOT doubles its operand never grows, so transforming again after De Morgan terminates. |
| KconfigTransform.TransBoolKeepsNotN | util/kconfig/expr.c:317-341 | expr_trans_bool only lowers values, and never to n, as long as nothing it rewrites is below a NOT. |
| KconfigTransform.TransBoolRewritesAll | util/kconfig/expr.c:317-341 | No test of a tristate against n is left, and a tree is left alone exactly if it had none. |
| KconfigTransform.TransBoolAfterTransform | util/kconfig/expr.c:317-341 | After expr_transform it keeps whether the value is n, for every tree. |
| KconfigTransform.TransBoolLimits | util/kconfig/expr.c:328-335 | Concrete trees: without the transform first it can turn n into something else, and it does not tell m from y. |
| KconfigTransform.SingleTests | util/kconfig/expr.c:328-335 | For one test it is exact if and only if the symbol is not m, and its negation keeps n if and only if the symbol is not m. |
| KconfigTransform.TransBoolBlurs | util/kconfig/expr.c:317-341 | For every tree and valuation the value is kept or becomes m, and it becomes m exactly if it rests on a test of a symbol that is m: no operand without such a test decides it. |
| KconfigTransform.TransBoolExactIff | util/kconfig/expr.c:317-341 | So it is exact if and only if the value rests on no such test, and it keeps whether the value is n if and only if the value is not an n that rests on one. |
| KconfigTransform.TransBoolExactWhenDecided | util/kconfig/expr.c:317-341 | In particular it is exact where every tested tristate is y or n. |
| KconfigTransform.TransCompareMeaning | util/kconfig/expr.c:877-936 | For every tree and valuation, the rewritten comparison with y (with n) compares the value the tree has when every symbol whose text is not y (is not n) is read as n (as y). |
| KconfigTransform.ComparedApart | util/kconfig/expr.c:877-936 | Transformed, the comparison of a conjunction or disjunction with n is that operator over the comparisons of its operands. |
| KconfigTransform.TransCompareExact | util/kconfig/expr.c:877-936 | The rewriting is exact when texts tell values and no NOT is applied to an m; for one symbol it is exact if and only if its text tells, for a NOT over such an operand if and only if the operand is not m. |
| KconfigTransform.LogicalTextsTell | util/kconfig/expr.c:877-936 | The texts of booleans, tristates and built-in constants tell. |
| KconfigTransform.StringsDoNotTell | util/kconfig/expr.c:928-929 | That of a string or number need not: it is n, and yet not n for the comparison. |
| KconfigJoin.JoinExact | util/kconfig/expr.c:346-502 | Whatever expr_join_or and expr_join_and return means exactly what their two operands mean together. (The comment at line 484 says a=m where the code, rightly, builds a=y.) |
| KconfigJoin.JoinIff | util/kconfig/expr.c:346-502 | For any two operands: they are joined exactly if expr_eq holds or one of the rules is for them, in either order. |
| KconfigJoin.JoinThird | util/kconfig/expr.c:374-484 | A tristate that is one of two built-in constants is not the third; one that is neither of two is the third. |
| KconfigJoin.JoinDenied | util/kconfig/expr.c:454-468 | A tristate that is one constant and not another is the first, or n if they are the same constant, in either order. |
| KconfigJoin.JoinSymbol | util/kconfig/expr.c:394-452 | A boolean or tristate and a comparison of it, in either order, give what is left of the two; a boolean or its negation gives y. |
| KconfigJoin.ExtractEqFactor | util/kconfig/expr.c:848-875 | What is extracted is one common factor of both trees, and the accumulator gathers exactly those factors. |
| KconfigJoin.ExtractCommonSound | util/kconfig/expr.c:826-846 | Both originals are the extracted part joined with their remainder. |
| KconfigJoin.ContradictionValue | util/kconfig/expr.c:574-604 | When the test of expr_eliminate_dups2 fires, the two operands together are the absorbing constant or m: the only place where a value is sharpened. |
| KconfigSlots.PutFactor | util/kconfig/expr.c:504-521 | What surrounds a slot on a spine contributes one value, whatever is assigned through the pointer. |
| KconfigSlots.PairJoinExact | util/kconfig/expr.c:530-551 | Replacing two leaves of one spine by the neutral constant and their join keeps the value of the whole tree. |
| KconfigSlots.SharpensInContext | util/kconfig/expr.c:556-606 | Sharpening (or keeping) what a pointer designates sharpens (or keeps) the whole tree, in Kleene's information order. |
| KconfigProgress.ExprEqSameContent | util/kconfig/expr.c:189-229 | Trees that expr_eq calls equal keep equally many atoms once constants are cancelled. |
| KconfigProgress.JoinShrinks | util/kconfig/expr.c:346-502 | A join is no more than its operands and strictly less than two operands with atoms. |
| KconfigProgress.PairJoinProgress | util/kconfig/expr.c:530-551 | Every counted join shrinks a tree without constants, measured after expr_eliminate_yn. |
| KconfigDups.ExprTree.EliminateDups1 | util/kconfig/expr.c:504-554 | One call, with pointers that may designate the same node or lie one below the other: the value is kept exactly, the spine and the form stay, every counted step is progress, nothing changes without one, and something is counted if and only if two leaves of the spine (or leaves inside them) can be joined. |
| KconfigDups.ExprTree.EliminateDups2 | util/kconfig/expr.c:556-610 | The second pass: values are only sharpened, the spine and the form stay, every counted step is progress, and something is counted if and only if there is a contradiction or tautology to find; where the leaves are in order, a counted pass leaves the absorbing constant on the spine and all other leaves as they were. |
| KconfigDups.ExprTree.JoinLeaves | util/kconfig/expr.c:520-551 | The part behind the recursion: deduplication inside the first leaf, then the join of two different leaves. |
| KconfigDups.ExprTree.SecondOverSpine2 | util/kconfig/expr.c:567-570 | The recursion over the second pointer falls through to the node itself; the contract holds nevertheless. |
| KconfigDups.ExprTree.ContradictLeaf | util/kconfig/expr.c:571-606 | A leaf against a node of its own spine: counted if and only if the node contradicts it or something inside it is contradicted. |
| KconfigDups.ExprTree.EliminateYnAt | util/kconfig/expr.c:231-312 | expr_eliminate_yn in place changes exactly the tree its pointer designates, to the value-level result. |
| KconfigDups.ExprTree.TransformAt | util/kconfig/expr.c:636-771 | expr_transform in place computes exactly the value-level transform at its slot, and terminates. |
| KconfigDups.ExprTree.TransBoolAt | util/kconfig/expr.c:317-341 | expr_trans_bool in place computes exactly the value-level result at its slot. |
| KconfigDups.ExprTree.OnePass | util/kconfig/expr.c:620-628 | Both passes over the whole tree: sharpening, progress if anything was counted, and nothing is counted if and only if there was neither a duplicate nor a contradiction. |
| KconfigDups.ExprTree.EliminateDups | util/kconfig/expr.c:612-634 | expr_eliminate_dups terminates; a value n or y is kept and only m may be sharpened; the result has no joinable pair and no contradiction left, and a tree is left alone if and only if it had none, so the result is; a tree with nothing but a contradiction becomes the absorbing constant; a changed tree has no constants and, if the old one had none, fewer atoms; the form stays; the global counter is restored. |
| KconfigReflexive.NoLeafTwice | util/kconfig/expr.c:504-554 | In what expr_eliminate_dups leaves, no spine has the same leaf twice. |
| KconfigReflexive.NoRuleLeft | util/kconfig/expr.c:374-485 | Nor two leaves that one of the rules of the two join functions is for, whichever comes first. |
| KconfigSpines.LeavesDiffer | util/kconfig/expr.c:504-554 | Nor has it, in a tree without constants, two leaves that differ in order and grouping only. |
| KconfigOpposites.OppositesContradict | util/kconfig/expr.c:574-604 | Under both operators and for every tree the test of the second pass fires against the transformed negation: nothing is left of it. |
| KconfigOpposites.ContradictsIff | util/kconfig/expr.c:574-604 | In trees without constants it fires if and only if the leaves of the transformed negation are among the leaves of the other side, as often as they occur. |
| KconfigOpposites.NoOppositesLeft | util/kconfig/expr.c:612-634 | So in what expr_eliminate_dups leaves, no operand of a spine stands beside its own negation. |
| KconfigDups.SharpenedExactly | util/kconfig/expr.c:612-634 | Where no symbol leaf is m, sharpening is exactness. |
| KconfigOpposites.SharpeningHappens | util/kconfig/expr.c:577-602 | (s or t) and not s and not t, and (s and t) or not s or not t, are such trees for any two tristates, and m under some valuation. |
| KconfigOpposites.Sharpen | util/kconfig/expr.c:612-634 | expr_eliminate_dups makes n of the first and y of the second. |
| KconfigMenu.FinalizeDep | util/kconfig/menu.c:315-331 | The condition menu_finalize stores, null conditions included: not n where the conjunction was y, y where it was y for a tristate, and n where it was n (for a boolean, if the condition of the menu has no test against n below a NOT); null exactly if both are; in normal form if that condition was; for a tristate free of duplicates, and for a boolean without any test of a tristate against n. |
| KconfigMenu.ContainsSound | util/kconfig/expr.c:773-795 | A tree that does not contain a symbol does not change with it. |
| KconfigMenu.ContainsExactly | util/kconfig/expr.c:773-795 | It is found exactly if it is one of the symbols of the tree. |
| KconfigMenu.DependsSound | util/kconfig/expr.c:797-824 | A tree that depends on a logical symbol is n whenever the symbol is n. |
| KconfigMenu.DependsExactly | util/kconfig/expr.c:797-824 | A tree depends on a symbol exactly if one of its conjuncts is the symbol, or compares it so that it is not n. |
| KconfigMenu.EliminateEqImplies | util/kconfig/menu.c:352-361 | If only y is left of the second tree, the first is never above the second, under any valuation. |
| KconfigMenu.NotN | util/kconfig/menu.c:342-344 | The comparison with n, transformed and cleared of duplicates, is exact for every condition: y where the condition, with everything but n read as y, is not n, and n elsewhere. It is in normal form, without duplicates and contradictions, and it is the transformed comparison itself where that had none. A null condition is always visible. |
| KconfigMenu.GoesBelow | util/kconfig/menu.c:346-361 | An entry is moved below an earlier one exactly if its condition depends on the symbol, or mentions it and elimination against the earlier condition leaves y. Both compared conditions are in normal form without duplicates, and without constants in them that is so exactly if all conjuncts of the earlier condition are among its own. Then, whenever the entry is visible, the earlier entry is visible (or its symbol is not n). |
| KconfigSpines.EliminateEqYesIff | util/kconfig/expr.c:164-184 | Elimination between two trees without constants leaves y of the second if and only if it was y, or the first is a conjunction that has all its conjuncts. |
| KconfigMenu.NarrowerGoesBelow | util/kconfig/menu.c:346-361 | A condition that is the earlier one and something that mentions the symbol goes below, if there is nothing to simplify in its comparison with n. |
| KconfigMenu.CollapsedStays | util/kconfig/menu.c:346-361 | Without that it need not: a concrete condition that contradicts the earlier one collapses to n and stays where it is. |
| KconfigMenu.VisibleValueExact | util/kconfig/expr.c:877-936 | That reading does not change visibility where texts tell values and no NOT is applied to an m. |
| UipTcp.Add32 | src/net/uip.c:201-227 | The bytewise addition with hand-propagated carries is addition modulo 2^32, for every 4-byte number and every 16-bit addend. |
| UipTcp.TcpConn.Accept | src/net/uip.c:1129-1150 | A SYN on a listening port: SYN_RCVD with one outstanding sequence number, rcv_nxt behind the peer's SYN, and its segment size, if it gives one, up to our own. The application has not been called. |
| UipTcp.TcpConn.Connect | src/net/uip.c:362-397 | An active open starts in SYN_SENT with one outstanding sequence number, whatever the slot held before, and without a call. |
| UipTcp.TcpConn.Acknowledge | src/net/uip.c:1249-1286 | snd_nxt moves by exactly the outstanding length, on its exact acknowledgement and on nothing else. |
| UipTcp.TcpConn.OutOfSequenceIff | src/net/uip.c:1226-1243 | A segment is out of sequence exactly if it occupies sequence numbers that do not start at rcv_nxt and is not a SYN that belongs to the opening. |
| UipTcp.TcpConn.Input | src/net/uip.c:1204-1603 | One segment in any state: snd_nxt as above; the application is handed the data exactly if the segment is takeable; in-order delivery is kept for every honest peer. In ESTABLISHED an exact acknowledgement or new data makes exactly one call, with exactly those flags and that data, and nothing else makes one; if the application carries on and gives data while nothing is outstanding, min(data, window) is outstanding afterwards and is the segment sent. Both openings call it with CONNECTED, a repeated SYN is answered by SYN and ACK, a reset makes one call with ABORT. An out-of-sequence segment changes no field and is answered by an acknowledgement; every reply carries snd_nxt and rcv_nxt, save the reset of a refused attempt, which carries the numbers of the segment. |
| UipTcp.TcpConn.Process | src/net/uip.c:1204-1603 | The same as a relation between the states before and after: what is taken continues at rcv_nxt, what is not taken leaves rcv_nxt and the delivered bytes alone; state, outstanding length, counted numbers, calls and kind of reply are the outcome that the next five rows are about, and timer, stop bit, segment size and retransmission count are fixed too. |
| UipTcp.OneCall | src/net/uip.c:1409-1512 | On an open connection a segment without a FIN makes exactly one call if it acknowledges what is outstanding or brings data that is taken, and none otherwise; data the application gives is sent at once if nothing is outstanding. |
| UipTcp.Opening | src/net/uip.c:1294-1371 | Both ways into ESTABLISHED and the flags the application is called with, and the answer to a repeated SYN. |
| UipTcp.StateDiagram | src/net/uip.c:1289-1602 | The state diagram, by the state that is reached: exactly from where, and by which of FIN, acknowledgement and answer of the application. |
| UipTcp.CountedIsAcknowledged | src/net/uip.c:1379-1602 | A FIN counts one number more than its data, and whatever is counted is acknowledged at once, except exactly for data that comes in FIN_WAIT_1 with the acknowledgement of our FIN. |
| UipTcp.HeardTells | src/net/uip.c:1289-1602 | A segment adds at most one call: CONNECTED exactly when the connection opens, new data exactly when it is taken, ABORT only when it is closed. |
| UipTcp.TcpConn.InSynRcvd | src/net/uip.c:1294-1315 | SYN_RCVD opens only on the acknowledgement of our SYN, with the data that came along, and calls the application then and only then. |
| UipTcp.TcpConn.InSynSent | src/net/uip.c:1316-1377 | SYN_SENT opens only on a SYN that acknowledges ours, whose segment size is taken over up to our own; anything else is reported, reset and closes the attempt. |
| UipTcp.TcpConn.InEstablished | src/net/uip.c:1379-1463 | ESTABLISHED calls the application for an acknowledgement and for new data, takes data unless stopped, follows the peer's window, drops a FIN while data is outstanding, and otherwise goes to LAST_ACK. |
| UipTcp.TcpConn.PeerCloses | src/net/uip.c:1391-1407 | A FIN while established is counted together with its data, handed over with CLOSE, and leaves one outstanding sequence number. |
| UipTcp.TcpConn.InFinWait1 | src/net/uip.c:1548-1575 | Data in FIN_WAIT_1 is counted but not handed over; the successor state depends on FIN and acknowledgement. |
| UipTcp.TcpConn.AtTheEnd | src/net/uip.c:1539-1602 | LAST_ACK closes, and CLOSING goes to TIME_WAIT with a fresh timer, on the acknowledgement of our FIN only; TIME_WAIT acknowledges whatever comes. |
| UipTcp.TcpConn.AppSend | src/net/uip.c:1465-1515 | What is outstanding after the application answered: the minimum of its data and the segment size, or what was outstanding before, or the FIN. |
| UipTcp.TcpConn.Expired | src/net/uip.c:666-724 | At the retry limit of its state the connection is closed, with a call TIMEDOUT and a reset; otherwise the timer is RTO << min(nrtx, 4), the counter is one higher, and what is sent again is the SYN, the SYN and ACK, the data the application gives for REXMIT, or the FIN. |
| UipTcp.TcpConn.Tick | src/net/uip.c:646-733 | One timer event shortens the remaining life by exactly one, and closes the connection exactly when one was left. Without a retransmission or a poll that is due nobody is called and nothing is sent; a poll is due exactly on an open connection with nothing outstanding. |
| UipTcp.TcpConn.PollRequest | src/net/uip.c:618-630 | A poll calls the application of an open connection with nothing outstanding, repeats the SYN of an attempt, and otherwise does nothing. |
| UipTcp.BackoffDoubles | src/net/uip.c:684-688 | The retransmission time starts at RTO, doubles four times, and stays. |
| UipTcp.TcpConn.Quiet | src/net/uip.c:654-733 | With nobody answering, a connection with something outstanding is closed after exactly timer + 1 + the sum of ((RTO << min(k,4)) + 1) for k from nrtx to the limit of its state, and not before; TIME_WAIT and FIN_WAIT_2 after exactly the rest of their timeout. |
| UipTcp.Advance | src/net/uip.c:1232-1243 | Data or a FIN with the expected sequence number continues the peer's stream exactly where it stopped: a sequence number designates one place in a stream shorter than 2^32. |
| UipTcp.TakesInOrder | src/net/uip.c:1289-1424 | The relation of Process keeps in-order delivery for every honest peer. |
| UipTcp.Run | src/net/uip.c:606-1683 | Over any run of lost, repeated and reordered segments, timer events and polls: the bytes handed over are a prefix of the peer's stream, they only grow and are exactly the data of the calls that announce new data; nothing is said before the connection opens or fails, CONNECTED comes first and once, and nothing follows ABORT or TIMEDOUT; and while ESTABLISHED rcv_nxt is the peer's initial number + 1 + the bytes handed over modulo 2^32, which is what every segment sent then acknowledges. |
| UipTcp.Feed | src/net/uip.c:1379-1463 | Conversely nothing is lost that comes in order: consecutive segments of data reach an application that does not stop completely, one call each. |
| Checksum.Chksum | src/net/uip.c:233-262 | chksum is the one's-complement sum of the 16-bit words added to its start value, an odd byte padded. |
| Checksum.WordsConcat | src/net/uip.c:233-262 | The sum can be taken in parts whose lengths are even. |
| Checksum.UpperLayerChksum | src/net/uip.c:282-302 | The sum over the rest of the packet is the one's-complement sum of the pseudo header (addresses, protocol, length) followed by the segment, never zero. The remark that the first addition cannot carry is true of TCP and UDP. |
| Checksum.UpperSumIs | src/net/uip.c:282-302 | The sum in the order the code takes it is that of the pseudo header and the segment behind each other. |
| Checksum.WordsAreWeighted | src/net/uip.c:233-262 | The words add up to the bytes at even places times 256 and the others. |
| Checksum.ComplementPasses | src/net/uip.c:1655-1668 | Writing the complement of a sum into its field (or all ones where the complement is zero) makes the receiver's sum all ones. |
| Checksum.FilledField | src/net/uip.c:1655-1668 | Filling a zero field at an even offset adds exactly its value. |
| Checksum.IpSend | src/net/uip.c:1659-1668 | Every packet leaves with a header that passes RFC 1071: the words of its 20 bytes add up to all ones, which is the check at line 835. |
| Checksum.TcpSend | src/net/uip.c:1648-1668 | Every TCP segment leaves with a valid header, and the words of pseudo header and segment add up to all ones; its payload and ports are untouched. |
| Checksum.UdpSend | src/net/uip.c:981-989 | The same for every UDP datagram, whose checksum field is not zero. |
| Checksum.PatchIcmpChecksum | src/net/uip.c:883-889 | The patch of an echo reply keeps the sum modulo 65535. |
| Checksum.EchoReply | src/net/uip.c:883-897 | The echo reply goes back to the sender, has a valid header, and a valid ICMP checksum exactly if the request had one. |
| Checksum.IpChecksum | src/base/ipchecksum.c:33-52 | The form with deferred carries is the complement of the one's-complement sum of the words read little-endian, up to 65536 bytes. |
| Checksum.ChecksumsAgree | src/base/ipchecksum.c:33-52 | ipchecksum is exactly the byte-swapped complement of chksum: even the two zeros agree. |
| FdtFormat.SkipMatchesUnflatten | src/base/device_tree.c:141-159 | fdt_skip_node consumes exactly what fdt_unflatten_node consumes at the same offset, for any buffer, and faults exactly where that faults. |
| FdtRead.SkipNode | src/base/device_tree.c:141-159 | The skipping loops compute that function. |
| FdtRead.UnflattenNode | src/base/device_tree.c:190-229 | The reading loops, with their list insertions, compute the recursive reader. |
| FdtTree.NodeReadsBack | src/base/device_tree.c:190-229 | Reading at a place where a buffer holds a node gives that node: name, properties, data, order, children; and consumes exactly its size. |
| FdtTree.NodeIsUnique | src/base/device_tree.c:190-229 | What was read stands for one tree only. |
| FdtWrite.FlatNodeSize | src/base/device_tree.c:288-322 | The size pass adds exactly the bytes of the structure and of the strings of a node. |
| FdtWrite.FlattenProp | src/base/device_tree.c:359-383 | One property: both cursors advance by its sizes, the buffer holds it, nothing else is touched. |
| FdtWrite.FlattenNode | src/base/device_tree.c:385-412 | One node, recursively: both cursors advance by exactly the precomputed sizes, the buffer holds the node, and nothing outside its two areas changes. |
| FdtWhole.DtFlatSize | src/base/device_tree.c:324-343 | dt_flat_size is the sum of header, reserve map, structure and strings; a reserve entry counts 16. |
| FdtWhole.DtFlatten | src/base/device_tree.c:414-449 | dt_flatten leaves a buffer that holds header, reserve map, tree and end token, and touches nothing behind dt_flat_size bytes; its cursors end at the precomputed block ends. |
| FdtWhole.ReserveReadsBack | src/base/device_tree.c:231-247 | The reserve map reads back up to its first entry of size zero. |
| FdtWhole.NonzeroPrefixWhole | src/base/device_tree.c:231-247 | It reads back whole if and only if no entry has size zero. |
| FdtWhole.DtUnflatten | src/base/device_tree.c:249-280 | fdt_unflatten on any buffer. |
| FdtWhole.RoundTrip | src/base/device_tree.c:249-280 | Unflattening what dt_flatten wrote gives back the tree and the reserve map up to its first empty entry, if the header says that the reserve map follows it. |
| FdtWhole.FlattenAndBack | src/base/device_tree.c:414-449 | Size, flatten and unflatten together: the same tree and the same reserve map. |
| FdtAgain.Reflatten | src/base/device_tree.c:249-280 | For every blob that is read without a fault and whose reserve map comes first: unflattening, flattening and unflattening again gives the same header size, reserve map and tree, however the blob shared its strings. |
| FdtAgain.ReadInside | src/base/device_tree.c:161-213 | What was read without a fault points into the blob if and only if names of properties end inside it and no size wraps when it is rounded up to words. |
| FdtAgain.TreeOf | src/base/device_tree.c:161-213 | Such pointers stand for a tree. |
| RangeSet.SetRegionMeaning | src/base/ranges.c:66-113 | With start < end the edge list stays strictly increasing and of even length, and denotes the old set with [start, end) added or removed. |
| RangeSet.SetRegionReversed | src/base/ranges.c:66-113 | With end < start the list survives if and only if start - 1 was already as asked for; then nothing changes. |
| RangeSet.Canonical | src/base/ranges.c:30-34 | Two well-formed edge lists for the same set are equal. |
| RangeSet.IntervalsMaximal | src/base/ranges.c:128-138 | The intervals handed out are not empty, in order, never touch, and make up exactly the set. |
| Ranges.RangeList.InsertBetween | src/base/ranges.c:36-46 | The linked list after an insertion: one new node at its place, all others as before. |
| Ranges.RangeList.SetRegionTo | src/base/ranges.c:66-113 | The two loops over the linked list turn its edges into exactly SetRegion of the old ones, for either order of the bounds; all new nodes are fresh. |
| Ranges.RangeList.Add | src/base/ranges.c:116-119 | Adding a region is set union. |
| Ranges.RangeList.Sub | src/base/ranges.c:122-125 | Subtracting a region is set difference. |
| Ranges.RangeList.ForEach | src/base/ranges.c:128-138 | The calls made, in order, are the intervals of the list; an odd edge is reported exactly when there is one. |
| Ranges.RangeList.Teardown | src/base/ranges.c:54-64 | Every edge is freed exactly once, in order, and the list is empty. |
| MemoryMap.BuildSets | src/boot/fit.c:288-317 | The loop over the e820 ranges builds exactly the two edge lists of the recursive description. |
| MemoryMap.BuiltCovers | src/boot/fit.c:292-317 | Whatever ranges overlap: memory is the union of the trimmed RAM ranges, reserved is the union of everything trimmed off or not RAM. |
| MemoryMap.MemoryMapMeaning | src/boot/fit.c:292-317 | For disjoint ranges: memory and reserved are disjoint, together exactly what the map covers, and memory is exactly the whole MiB blocks of the RAM. |
| MemoryMap.MemoryAligned | src/boot/fit.c:297-313 | Every edge of the memory set is 1 MiB aligned. |
| MemoryMap.MemoryStaysSetIff | src/boot/fit.c:302-313 | For any ranges, empty and overlapping ones included: the memory set stays well formed, range after range, if and only if every RAM range satisfies ALIGN_UP(start) <= ALIGN_DOWN(end) or has its block covered by earlier memory. |
| MemoryMap.PlacedIsOrdered | src/boot/fit.c:302-313 | For disjoint ranges with addresses in them that is the first condition alone. |
| MemoryMap.RepairedLater | src/boot/fit.c:302-313 | For the final list alone that is not necessary: a later range that begins where the block ends repairs it. |
| MemoryOrder.SortedMapIff | src/boot/fit.c:302-313 | For a map sorted by address the final list is well formed if and only if for every RAM range with ALIGN_UP(start) > ALIGN_DOWN(end) a later RAM range with whole blocks starts at that ALIGN_UP(start); then it has exactly the whole blocks of the ranges. |
| MemoryOrder.LoopState | src/boot/fit.c:288-317 | Step by step: either every such range is repaired and the list is a set, or the lowest block that is not leaves two edges in the wrong order for good. |
| MemoryMap.BackToFront | src/boot/fit.c:309-310 | A RAM range inside one MiB block leaves an interval that ends before it starts. |
| MemoryMap.UpdateReserveMap | src/boot/fit.c:209-218 | Each interval is put in front of the existing reserve entries. |
| MemoryMap.ReserveMapMeaning | src/boot/fit.c:209-218 | The entries denote exactly the reserved set and none of them is empty. |
| RegProperty.SplittingEndsIff | src/boot/fit.c:244-263 | The splitting loop ends if and only if there is one size cell or the range is below 4 GiB: the size variable has 32 bits. |
| RegProperty.PiecesTile | src/boot/fit.c:249-261 | The pieces of a range are not empty, at most max_range, contiguous, and reach from its start to its end. |
| RegProperty.CountIsPieces | src/boot/fit.c:235-242 | count_entries counts exactly the pieces that are written. |
| RegProperty.WriteInt | src/base/device_tree.c:682-688 | dt_write_int writes the low bytes of the number, most significant first, and nothing else. |
| RegProperty.UpdateMemProperty | src/boot/fit.c:244-263 | The bytes of the pieces are written behind each other and the pointer ends behind them. |
| RegProperty.CountEntries | src/boot/fit.c:235-242 | The counter over all ranges is the number of pieces modulo 2^32. |
| RegProperty.FillReg | src/boot/fit.c:331-331 | All ranges, one behind the other. |
| RegProperty.AllocationExactIff | src/boot/fit.c:328-332 | The final assertion, written length equals allocated length, holds if and only if the number of cells fits 32 bits. |
| RegProperty.DecodeReg | src/boot/fit.c:244-263 | Decoding the cells gives the pieces back, if addresses and sizes fit their cells. |
| FitMemory.FitTree.UpdateMemory | src/boot/fit.c:265-338 | update_memory as a whole: without a memory map nothing changes; otherwise the tree gets exactly the new reserve entries, the memory node in front, and loses its old memory nodes. |
| FitMemory.ReadCellProps | src/base/device_tree.c:489-499 | The last #address-cells and #size-cells of the root decide, 1 by default. |
| FitMemory.CellPropIs | src/base/device_tree.c:489-499 | That is the big-endian number in the first four bytes of the last property of the name, or the default if there is none. |
| FitMemory.RegMeaning | src/boot/fit.c:322-335 | What the kernel decodes from reg, for ranges that may overlap: pieces no larger than max_range whose union is exactly the whole MiB blocks of the RAM ranges. |
| FitMemory.ReserveMeaning | src/boot/fit.c:319-320 | What the new reserve entries cover: exactly the addresses of the map outside those blocks; none is empty. |
| FitMemory.ReserveSurvives | src/boot/fit.c:319-320 | So the kernel reads back the whole reserve map, if the tree came without empty entries. |
| FitMemory.OneSizeCellSuffices | src/boot/fit.c:227-233 | With one size cell every map whose RAM ranges are ordered and end at or below 2^64 - 2^31, so that the rounding has room, can be split and counted. |
| FitMemory.OnlyOthersKept | src/boot/fit.c:277-282 | Exactly the nodes that are not memory nodes are kept. |
| FitMemory.KeptInOrder | src/boot/fit.c:277-282 | They keep their order. |
| FitMemory.OneMemoryNode | src/boot/fit.c:276-286 | The updated root has exactly one memory node: the new one, in front, named memory, with no other properties than reg and the device type memory. |
| FitMemory.RestStays | src/boot/fit.c:265-338 | Header, name and properties of the root, and the old reserve entries behind the new ones, stay. |
| Tftp.TftpReader.Callback | src/netboot/tftp.c:105-189 | One datagram, byte by byte: exactly the step that ReceivedIs is about; whatever arrives, memory behind the bytes counted so far, and so behind max_size, stays. |
| Tftp.ReceivedIs | src/netboot/tftp.c:105-189 | That step in bytes: an error datagram fails the transfer; the block that is waited for is stored behind what was counted and, if full, acknowledged by its number, fails the transfer if there is no room and ends it if it is not full; anything else changes nothing. |
| Tftp.TftpReader.Read | src/netboot/tftp.c:224-255 | The polling loop computes exactly a run of that description, with one packet sent before every poll while it is pending. |
| Tftp.NothingBehind | src/netboot/tftp.c:150-165 | So it does over any run, whoever sends. |
| Tftp.EndsIff | src/netboot/tftp.c:105-255 | Over any polls: a transfer has failed if and only if it met, while pending, an error datagram or the awaited block without room for it, and succeeded if and only if it met the awaited block, with room, and not full. |
| Tftp.PendingSeesNoError | src/netboot/tftp.c:126-131 | So a pending transfer has seen no error datagram. |
| Tftp.RequestReads | src/netboot/tftp.c:191-208 | The request is a read request whose file name and mode read back as C strings. |
| Tftp.TftpReader.Fetch | src/netboot/tftp.c:191-270 | The read request of a file name, and what comes of it in any honest run: memory holds a prefix of the file and is otherwise untouched; success means the whole file, unacknowledged in its last block; failure has one of its two causes, and while it is pending no error datagram was seen and one packet was sent for each poll. |
| Tftp.ServerBehind | src/netboot/tftp.c:137-144 | A lock-step server is never ahead of the client: nothing the client sent acknowledges a block it still waits for, even modulo 2^16. |
| Tftp.RunGood | src/netboot/tftp.c:105-255 | Whatever is lost, repeated or reordered: while pending, memory holds the first blocknum - 1 full blocks and nothing more; success means the whole file; failure means an error datagram or a file larger than max_size. |
| Tftp.LastBlockUnacknowledged | src/netboot/tftp.c:167-255 | No honest run that succeeds acknowledges the last block. |
| Tftp.RunAsks | src/netboot/tftp.c:235-255 | At any time the last packet sent asks for the block that is waited for (the request, or the acknowledgement of the block before), every block before has been acknowledged, and every poll sent one packet. |
| Tftp.NeverStuck | src/netboot/tftp.c:105-255 | Whatever was lost, repeated or late so far, a pending transfer of a file that fits and is below 65535 full blocks can still succeed. |
| Tftp.SuccessPossibleIff | src/netboot/tftp.c:142-144 | Some honest run succeeds if and only if the file is shorter than 65535 * 512 bytes and fits: behind that the int counter never equals a 16-bit number again. |
| Fwdb.CheckDb | src/base/fwdb.c:98-156 | fwdb_use_db on any buffer: the walk with unpadded sizes and 32-bit sums. |
| Fwdb.UsedIff | src/base/fwdb.c:98-156 | Any buffer: it is used exactly if signature and version are the known ones and the walk over entries whose names end inside them stops at a zero word with room for it (or where the 32-bit sum is about to wrap); otherwise it is rejected, unless the walk leaves the buffer. |
| Fwdb.UseAccepts | src/base/fwdb.c:120-155 | Every database in a buffer is accepted, although its unpadded sizes are added up. |
| Fwdb.Database.Create | src/base/fwdb.c:70-96 | A region is refused exactly if header and terminator do not fit; otherwise it holds the empty database. |
| Fwdb.Database.Seek | src/base/fwdb.c:181-213 | The walk stops at the first entry of the name, or at the terminator. |
| Fwdb.WriteEntry | src/base/fwdb.c:242-255 | Size, name, zero padding and data of an entry, and nothing else. |
| Fwdb.AppendEntry | src/base/fwdb.c:242-265 | The new terminator is written exactly where the next walk lands; everything before the old terminator stays. |
| Fwdb.HoldsAppend | src/base/fwdb.c:242-265 | The entries before keep being held, the new one is the last. |
| Fwdb.Database.Access | src/base/fwdb.c:171-268 | fwdb_access refines an insert-only map with room: reply and entries as that map says, a failed call changes nothing, and an insertion changes only the new entry and terminator. |
| Fwdb.FirstStoredStays | src/base/fwdb.c:171-268 | After any later calls a name keeps the address and the bytes of its first insertion. |
| Fwdb.FoundBytes | src/base/fwdb.c:201-208 | Address and size of a lookup delimit the stored bytes, 8-byte aligned and inside the maximum. |
| Fwdb.EntriesApart | src/base/fwdb.c:211-212 | Entries never overlap. |
| Escape.EscapedLength | util/kconfig/symbol.c:922-934 | The first pass computes exactly the length of the quoted text and its NUL. |
| Escape.EscapeStringValue | util/kconfig/symbol.c:915-956 | The buffer holds the quoted text and is filled exactly. |
| Escape.QuotedReadsBack | util/kconfig/confdata.c:156-171 | Every string is read back exactly from its quoted form, whatever follows the closing quote. |
| Escape.UnquoteInPlace | util/kconfig/confdata.c:156-171 | The unescaping with memmove, in place and for every text: the value, or no quote, or no closing quote. No search starts behind the NUL of the text and nothing is written at or behind it: after a final backslash the search meets that NUL, which the memmove leaves in place. |
| Escape.RejectedIff | util/kconfig/confdata.c:159-171 | A text behind its opening quote is rejected if and only if it has no quote with an even number of backslashes in front of it. |
| Escape.EscapeAndBack | util/kconfig/symbol.c:915-956 | Written into a buffer and unquoted there, every string comes back. |
| MenuWalk.Walk | util/kconfig/confdata.c:804-837 | The walk over list, next and parent visits exactly the menus below the root in recursive order, and ends. |
| MenuWalk.NextAbove | util/kconfig/confdata.c:831-836 | Climbing finds the next sibling of the nearest ancestor that has one. |
| MenuWalk.VisitedOnce | util/kconfig/confdata.c:695-750 | No menu is visited twice: in consistently linked menus the recursive order has no repetition. |
| Machine.BytesRoundTrip | src/base/device_tree.c:682-688 | Reading back the bytes written for a number gives it modulo the width. |

## Left out

- Kconfig: node sharing, freeing and allocation; null expressions except at the top level of a condition; E_LIST and E_RANGE nodes; symbol calculation itself, of which only the well-formedness of its result is used.
- KconfigDups.ExprTree.ContradictLeaf: the extraction works on private copies, so the method calls the value-level function that KconfigPairs.ExprPair.ExtractCommonAt is proved equal to.
- KconfigDups.ExprTree.EliminateDups1: what expr_eq adds to and takes back from the global counter is not modelled, since it restores the counter.
- KconfigTransform.TransCompareMeaning: for comparisons with y and n, the only ones whose result is defined for every tree; comparing a conjunction with m returns the tree itself, and a comparison with any other symbol returns a null pointer for some trees.
- KconfigSpines.ExprEqExactly: trees with y or n under a nested operator, where the answer depends on the order of the operands.
- KconfigMenu.FinalizeDep: one condition of one property; the loops of menu_finalize over menus and properties, its warnings and its choice handling are not modelled.
- KconfigMenu.NarrowerGoesBelow: a narrower condition whose comparison can be simplified, since that may merge or collapse the conjuncts that are looked for (KconfigMenu.CollapsedStays); then KconfigMenu.GoesBelow says by the simplified conditions whether it goes below.
- UipTcp.TcpConn.Input: urgent data, the round-trip estimation (an arbitrary byte) and TCP options other than the segment size are not modelled; the lookup of the connection is not part of this model, and neither are several connections at once.
- UipTcp.Run: the application may answer each call in any way, but it does not send after uip_close while data is outstanding; stop and restart are over-approximated by arbitrary answers.
- UipTcp.TcpConn.Accept: the choice of a free slot, and the increment of the initial sequence number by the timer.
- Reassembly of IP fragments, ARP, DHCP, UDP demultiplexing.
- Checksum.TcpSend: from the label on that sets the length; the header fields filled in before are whatever the buffer holds.
- FdtFormat.SkipMatchesUnflatten: offsets are unbounded naturals; what the int offsets of the C code do behind 2^31 is not covered.
- FdtAgain.Reflatten: a total size of the flattened tree below 2^31, which a blob that shares its strings may exceed.
- FdtWhole.DtFlatten: the bytes that pad strings and data to words are left unspecified, as the C code leaves them; the total is written with the other header fields and not last; addresses are offsets.
- FdtWhole.RoundTrip: for buffers below 2^31 bytes, where the int offsets of the C code do not wrap; the offset of the reserve map is copied by the C code and not recomputed, so the header has to name the place right behind it.
- Printing of trees, lookup by path and by compatible string, fixups, and the caches behind node allocation.
- Ranges.RangeList.ForEach: a callback does not change the list it is called for; the calls are returned in order.
- MemoryOrder.SortedMapIff: the final list for maps that are not sorted by address, for which MemoryMap.MemoryStaysSetIff is about every step.
- MemoryMap.BuildSets: the ranges come as a sequence; addresses whose alignment or end would wrap at 2^64 are outside the theorems about meaning, not outside the loop.
- RegProperty.UpdateMemProperty: numbers of size cells other than 1 and 2, for which max_range shifts by too much, and ranges for which the loop does not end.
- FitMemory.FitTree.UpdateMemory: the images and configurations of a FIT, and where the e820 map comes from.
- Tftp.TftpReader.Read: at most one datagram for each poll; the UDP port that is latched, and so which datagrams reach the callback, is the network's choice; the loop runs over as many polls as the network gives.
- Fwdb.Database.Access: sums of addresses and sizes do not wrap at 2^64; the data of an entry may be changed by its owner through the pointer it was given, which is not modelled.
- Fwdb.CheckDb: databases made by others that are accepted without being well formed are not given a meaning.
- Escape.UnquoteInPlace: the other cases of conf_set_sym_val, and the validity check of the value.
- MenuWalk.Walk: what is written for a menu; only which menus are reached, and in which order.
- User interfaces, file handling, drivers, verified boot, UEFI and everything else in the repository.
