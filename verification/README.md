# DREP-Chain, modelled and proved in Dafny

This project models the parts of the DREP-Chain node where a mistake would be hardest to see, and proves
what they are for. Code that changes things in place is modelled by classes, arrays and loops; code made of
expressions by functions. Every method is proved against a specification on values, and the main results are
about those specifications: for every input, every run or every reachable state.

`dafny verify dfyconfig.toml` checks the whole project.

## What is modelled

- **Scalar multiplication and field arithmetic of secp256k1** (`Bytes`, `Group`, `Naf`, `NafTheory`,
  `ScalarMult`, `Limbs`, `Field`, `FieldVal`). A point is an element of any abelian group of which N times the
  point vanishes and on which the endomorphism is multiplication by lambda. Field elements are ten limbs of 26
  bits with late carries; all 32- and 64-bit sums are cut explicitly.
- **The Merkle Patricia trie** (`TrieNode`, `TrieOps`, `TrieMap`, `TrieResolve`, `TrieDigest`, `TrieEncoding`,
  `Trie`) **and its write-back database** (`TrieDb`). Hashing is an injective function; nodes may be in memory
  or in the database.
- **Keccak** (`Keccak`, `Words`, `Sponge`), against sections 3.2, 4 and 5.1 of FIPS 202.
- **Ledger, staking and block execution** (`Ledger`, `Credits`, `Maturity`, `Transactions`,
  `TransactionEffects`, `Overlay`, `Store`, `Block`). The store keeps its records in the write overlay over the
  state trie, and a failing transaction is undone by the overlay's own snapshots.
- **Chain selection** (`ChainTree`, `ChainView`, `Orphans`, `ChainService`): the block tree, the flat view of
  the best branch, reorganisation and the orphan pool. What validators and storage answer is left open.
- **The bloom-bit index** (`Bits`, `Bloom`, `Matcher`, `Distributor`), **the sparse compressor** (`Compress`)
  and **the nonce-sorted transaction map** (`NonceHeap`, `SortedMap`, `TxList`).

`Basics` holds the types that several of them share.

## Model

| member | source | states |
|---|---|---|
| `ScalarMult.ScalarMult` | crypto/secp256k1/btcec.go:761-861 | for every byte string k and every point p with N·p zero and phi(p) = lambda·p, the split, recoded and interleaved loop returns k·p |
| `ScalarMult.ScalarBaseMult` | crypto/secp256k1/btcec.go:866-883 | adding one table point per byte returns k·G for every byte string k |
| `ScalarMult.SplitK` | crypto/secp256k1/btcec.go:631-664 | two byte strings and signs whose signed values k1 and k2 satisfy k1 + k2·lambda = k modulo N, both below a2 |
| `ScalarMult.SplitCongruent` | crypto/secp256k1/btcec.go:631-664 | k1 + k2·lambda differs from k by a multiple of N whatever the rounding of the two quotients |
| `ScalarMult.SplitShort` | crypto/secp256k1/btcec.go:631-664 | with quotients rounded down both halves stay strictly between -a2 and a1 |
| `ScalarMult.LatticeBasis` | crypto/secp256k1/btcec.go:939-944 | the four constants are a basis of the lattice of pairs (a, b) with a + b·lambda = 0 modulo N, of determinant N |
| `ScalarMult.ModuloReduce` | crypto/secp256k1/btcec.go:669-680 | a string of at most 32 bytes, the same string when it was no longer, and always congruent to it modulo N |
| `ScalarMult.Interleave` | crypto/secp256k1/btcec.go:815-857 | the left-to-right pass over two non-adjacent forms at once gives n1·p1 + n2·p2 |
| `ScalarMult.DoubleAndAdd` | crypto/secp256k1/btcec.go:834-851 | one inner step doubles the sum and adds the digit each top bit stands for |
| `Naf.NAF` | crypto/secp256k1/btcec.go:689-757 | two byte strings whose difference is k, no position being set in both and no two neighbouring positions being set at all |
| `Naf.RecodeByte` | crypto/secp256k1/btcec.go:704-750 | the inner loop keeps the recoding of the bits read so far, with the carry |
| `NafTheory.NafUnique` | crypto/secp256k1/btcec.go:682-688 | a number has exactly one non-adjacent form |
| `NafTheory.NafFewestDigits` | crypto/secp256k1/btcec.go:682-688 | no signed binary form of the number has fewer nonzero digits than the non-adjacent one |
| `FieldVal.FieldVal.Mul2` | crypto/secp256k1/field.go:618-878 | for factors of magnitude 8 the product modulo p, of magnitude 1 again; the object may be one of the factors |
| `FieldVal.FieldVal.SquareVal` | crypto/secp256k1/field.go:898-1111 | for a number of magnitude 8 its square modulo p, of magnitude 1 again |
| `FieldVal.FieldVal.Inverse` | crypto/secp256k1/field.go:1118-1220 | for a number of magnitude 8 its (p - 2)-th power modulo p |
| `FieldVal.FieldVal.Normalize` | crypto/secp256k1/field.go:245-364 | for any 32-bit limbs reduced limbs below p, of the number less what overflow dropped, modulo p |
| `FieldVal.FieldVal.NegateVal` | crypto/secp256k1/field.go:465-496 | (magnitude + 1)·p less the number, with limbs of magnitude one higher and no 32-bit underflow, up to magnitude 63 |
| `Field.ProductColumns` | crypto/secp256k1/field.go:619-798 | the nineteen columns of the product, carried, have the value of the product; no 64-bit sum overflows |
| `Field.SquareColumns` | crypto/secp256k1/field.go:899-1031 | the nineteen columns with doubled cross terms have the value of the square; no 64-bit sum overflows |
| `Field.Reduce` | crypto/secp256k1/field.go:800-878 | twenty limbs fold into ten of magnitude 1 with the same residue modulo p |
| `Field.NormalizeLimbs` | crypto/secp256k1/field.go:245-364 | limbs within their widths whose value is the residue modulo p of the number less what overflow dropped |
| `Field.NormalizeExact` | crypto/secp256k1/field.go:245-364 | what Normalize gives is the residue of the number if and only if no limb overflows 32 bits while carries are gathered |
| `Field.SmallLimbsFit` | crypto/secp256k1/field.go:245-364 | every number of magnitude up to 63 is within that condition |
| `Field.NormalizeNeedsRoom` | crypto/secp256k1/field.go:245-296 | an input for which a carry is lost and the residue is wrong |
| `Field.ExceedsIff` | crypto/secp256k1/field.go:298-330 | the bitwise test after the first pass holds exactly when the number is at least p |
| `Field.NegateLimbs` | crypto/secp256k1/field.go:484-493 | limb by limb (magnitude + 1)·p less the number, without underflow |
| `TrieNode.CanonUnique` | common/trie/trie.go:212-410 | canonical tries with the same contents are the same trie |
| `TrieMap.InsertCanon` | common/trie/trie.go:212-279 | insert into a canonical trie gives a canonical trie, is dirty exactly when the key did not hold the value, and otherwise changes nothing |
| `TrieMap.InsertLookup` | common/trie/trie.go:212-279 | insert binds its key and leaves every other key alone |
| `TrieMap.DeleteCanon` | common/trie/trie.go:303-410 | delete from a canonical trie gives a canonical trie, is dirty exactly when the key was there, and otherwise changes nothing |
| `TrieMap.DeleteLookup` | common/trie/trie.go:303-410 | delete unbinds its key and leaves every other key alone |
| `TrieMap.ReduceCanon` | common/trie/trie.go:343-385 | what is left of a full node after a child has gone is canonical again |
| `TrieOps.ComputePrefixLen` | common/trie/encoding.go:100-111 | the length of the longest common prefix |
| `TrieOps.FindOnlyChild` | common/trie/trie.go:352-362 | the index of the only child, -1 for none, -2 for several |
| `TrieResolve.GetStands` | common/trie/trie.go:138-172 | tryGet on a partly loaded trie returns what the loaded trie holds, or names a node that is missing, and its node stands for the same trie |
| `TrieResolve.InsertStands` | common/trie/trie.go:212-279 | insert does to a partly loaded trie what it does to the loaded one, or names a missing node |
| `TrieResolve.DeleteStands` | common/trie/trie.go:303-441 | delete does to a partly loaded trie what it does to the loaded one, or names a missing node |
| `TrieDigest.StandsMark` | common/trie/trie.go:445-479 | a node has the digest of the trie it stands for, whatever part of it is loaded |
| `TrieDigest.MarkTells` | common/trie/trie.go:66-108 | whatever has the digest of a canonical trie, over any database that keeps nodes under their digests, stands for that trie |
| `TrieDigest.MarkUnique` | common/trie/trie.go:445-479 | canonical tries with the same digest are the same trie |
| `TrieDigest.CollapseStands` | common/trie/trie.go:453-470 | replacing loaded subtries by hash nodes that the database resolves keeps the trie, and every node of it can still be found |
| `Trie.New` | common/trie/trie.go:66-108 | the empty trie for the hash of none; otherwise the resolved root of the trie the hash stands for, or none exactly when neither database has it |
| `Trie.Trie.constructor` | common/trie/trie.go:66-82 | a trie over a root that stands for a canonical trie |
| `Trie.Trie.TryGet` | common/trie/trie.go:129-136 | the value the trie holds, or a digest the databases do not have, in which case nothing changes |
| `Trie.Trie.TryUpdate` | common/trie/trie.go:194-210 | binds the key, or unbinds it for an empty value, and nothing else; on a missing node nothing changes |
| `Trie.Trie.TryDelete` | common/trie/trie.go:290-298 | unbinds the key and nothing else; on a missing node nothing changes |
| `Trie.ReloadKeeps` | common/trie/trie.go:426-470 | a reload that keeps the root digest, and in strict runs every node, keeps the trie |
| `Trie.RunIsMap` | common/trie/trie.go:129-441 | after any run of gets, updates, deletions and reloads the root stands for a canonical trie with exactly the contents of the finite map of the operations that succeeded; with a full database none fails |
| `Trie.RootTellsContents` | common/trie/trie.go:194-479 | two runs from the empty trie, with any reloads, end with the same root digest if and only if they end with the same map |
| `Trie.GetAfterRun` | common/trie/trie.go:129-172 | reading after a run returns what the map holds |
| `TrieEncoding.KeybytesToHex` | common/trie/encoding.go:68-77 | the nibbles of the key and the terminator |
| `TrieEncoding.HexKeyInjective` | common/trie/encoding.go:68-77 | different keys have different hex keys |
| `TrieEncoding.HexToCompact` | common/trie/encoding.go:37-52 | the loop over a byte buffer computes the compact form of a hex key |
| `TrieEncoding.CompactToHex` | common/trie/encoding.go:54-66 | the hex form of any byte string |
| `TrieEncoding.CompactRoundTrip` | common/trie/encoding.go:37-66 | decoding the compact form gives the hex key back |
| `TrieEncoding.ExpandRoundTrip` | common/trie/encoding.go:37-66 | decoding always gives a hex key, and encoding it again gives the bytes back if and only if they are a well-formed compact key |
| `TrieEncoding.ExpandNeedsFlag` | common/trie/encoding.go:54-66 | a first byte for which it does not |
| `TrieDb.Database.constructor` | common/trie/database.go:306-326 | a database over a disk that is closed under references, its first moment recorded |
| `TrieDb.Database.Node` | common/trie/database.go:389-418 | the content a hash stands for, from the clean cache, memory or disk, if it is in any |
| `TrieDb.Database.Insert` | common/trie/database.go:348-373 | a new dirty node at the end of a well-linked flush list, recorded as a moment, or nothing if it is there |
| `TrieDb.Database.Reference` | common/trie/database.go:504-522 | a further reference between nodes in memory keeps every invariant |
| `TrieDb.Database.RemoveFromList` | common/trie/database.go:809-840 | the flush list without the node is well linked, and every other node keeps its content and references |
| `TrieDb.Database.Uncache` | common/trie/database.go:809-840 | a node on disk leaves memory, which is recorded as a moment; what could be resolved still can |
| `TrieDb.Database.FlushBatch` | common/trie/database.go:785-794 | a batch is written, then forgotten in memory; after the write and after each removal everything can be resolved and the disk is closed |
| `TrieDb.Database.Commit` | common/trie/database.go:770-796 | children first: all a node leads to is on disk or in the batch, and every moment on the way is safe |
| `TrieDb.Database.SaveNode` | common/trie/database.go:782-794 | a node whose children are saved goes into the batch, which may then be flushed |
| `TrieDb.Database.TrieDb` | common/trie/database.go:702-767 | at every recorded moment of the commit, none of which can be left out, whatever could be resolved still can and the disk is closed under references; at the end all the root leads to, by content or by further reference, is on disk |
| `TrieDb.UnlinkMiddle` | common/trie/database.go:819-829 | taking a node out between two others leaves the list well linked |
| `TrieDb.WrittenClosed` | common/trie/database.go:782-794 | writing a batch whose entries refer only to the disk and to earlier entries keeps the disk closed |
| `Keccak.KeccakF1600` | crypto/sha3/keccakf.go:39-412 | the in-place loop of unrolled rounds is the permutation Keccak-f[1600] of section 3.3 of FIPS 202 |
| `Keccak.FourRounds` | crypto/sha3/keccakf.go:44-411 | one turn of the loop is four applications of the five step mappings of section 3.2 of FIPS 202 |
| `Keccak.RoundInPlace` | crypto/sha3/keccakf.go:48-137 | one unrolled round takes a state laid out by r rounds to its image laid out by r + 1 rounds |
| `Keccak.ColumnEffects` | crypto/sha3/keccakf.go:49-58 | the temporaries are the column parities that theta adds |
| `Keccak.LaidBack` | crypto/sha3/keccakf.go:44-411 | after four rounds every lane is back in its place |
| `Keccak.RoundLane` | crypto/sha3/keccakf.go:48-137 | each lane of a round of the standard, as a formula of the lanes before |
| `Keccak.OffsetsFollowWalk` | crypto/sha3/keccakf.go:60-137 | the rotation constants are the offsets that the walk of section 3.2.2 of FIPS 202 gives |
| `Keccak.RoundConstants` | crypto/sha3/keccakf.go:10-35 | the table of round constants is what the shift register of section 3.2.5 of FIPS 202 gives |
| `Words.XorIn` | crypto/sha3/xor_generic.go:12-20 | xors whole little-endian words into the state, as the string of its bytes |
| `Words.CopyOut` | crypto/sha3/xor_generic.go:23-28 | writes whole words of the state into the buffer and leaves the rest |
| `Sponge.State.constructor` | crypto/sha3/sha3.go:26-50 | an empty absorbing state |
| `Sponge.State.Write` | crypto/sha3/sha3.go:128-160 | the message grows by the data, whatever the buffer holds |
| `Sponge.State.PadAndPermute` | crypto/sha3/sha3.go:101-124 | the message is padded and absorbed, and squeezing begins |
| `Sponge.State.Read` | crypto/sha3/sha3.go:163-184 | the next n bytes of the output of the sponge on the message |
| `Sponge.State.Clone` | crypto/sha3/sha3.go:69-78 | a copy that shares nothing with the state; while squeezing it gives the last 168 - rate bytes once more, and there is none exactly when fewer have been given of the block |
| `Sponge.State.Sum` | crypto/sha3/sha3.go:188-195 | the digest of the message, appended; of a squeezing state the further output of its copy; the state is not changed |
| `Sponge.ReadThenSum` | crypto/sha3/sha3.go:69-78 | with the rate of Keccak-256, a sum after reading 32 bytes gives these once more and fails after fewer |
| `Sponge.State.Reset` | crypto/sha3/sha3.go:60-67 | the empty state again |
| `Sponge.HashInPieces` | crypto/sha3/sha3.go:128-184 | however a message is cut into writes and the output into reads, the output is that of section 4 of FIPS 202 on the whole message |
| `Sponge.PaddingIsPad101` | crypto/sha3/sha3.go:101-124 | the padding is the domain bits followed by the rule pad10*1 of section 5.1 of FIPS 202 |
| `Sponge.SqueezePrefix` | crypto/sha3/sha3.go:163-184 | a shorter output is a prefix of a longer one |
| `Ledger.MaturedPlusWaiting` | chain/store/stakestore.go:339-384 | what matures and what still waits are together what was cancelled |
| `Ledger.MatureInWord` | chain/store/stakestore.go:347-347 | the test on 64-bit heights agrees with the one on numbers if and only if the credit matures below 2^64; otherwise it is mature at once |
| `Ledger.MaturesAtOnce` | chain/store/stakestore.go:347-347 | an input for which it does not agree |
| `Ledger.PutBalanceCoins` | chain/store/store.go:206-224 | writing a balance changes the coins by the change of the spendable balance, and at height 0 by that of the account alone |
| `Ledger.AddBalanceCoins` | chain/store/store.go:167-178 | adding to a balance changes the coins by the amount |
| `Credits.TakenAndLeft` | chain/store/stakestore.go:216-271 | a cancellation takes exactly the amount and leaves exactly the rest |
| `Credits.OldestFirst` | chain/store/stakestore.go:224-260 | credits are taken whole from the oldest on, and at most one is divided |
| `Credits.VoteCreditCoins` | chain/store/stakestore.go:154-196 | pledging adds the amount to the coins, or nothing when it is refused |
| `Credits.CandidateCreditCoins` | chain/store/stakestore.go:424-484 | registering adds the amount to the coins, or nothing when it is refused |
| `Credits.CancelVoteCreditCoins` | chain/store/stakestore.go:309-336 | cancelling a pledge to another moves coins and makes or loses none |
| `Credits.CancelCandidateCreditCoins` | chain/store/stakestore.go:488-498 | cancelling a pledge to oneself moves coins and makes or loses none |
| `Maturity.LazyBalanceIsEager` | chain/store/store.go:167-224 | after any run at non-decreasing heights the balance read at any later height is that of a ledger that paid every cancelled credit once, when its height came |
| `Maturity.RunRepresents` | chain/store/stakestore.go:154-384 | any run keeps the store and the eager ledger in agreement on everything an address holds |
| `Maturity.AddCancelMaturity` | chain/store/stakestore.go:285-302 | a credit cancelled now waits, unless there is no waiting time |
| `Maturity.PutBalanceReadsBack` | chain/store/store.go:206-224 | a written balance reads back if and only if the height is positive or nothing counts as matured at height 0 |
| `Maturity.SettlesExactly` | chain/store/store.go:206-224 | it does so for all ledgers if and only if the height or the waiting time is positive |
| `Maturity.PutBalanceNeedsHeight` | chain/store/store.go:206-224 | an input for which it does not |
| `Transactions.RouteCoins` | blockmgr/templatevalidator.go:92-147 | a transaction that goes through takes exactly its fee out of circulation and its gas out of the pool |
| `Transactions.ExecuteCoins` | blockmgr/templatevalidator.go:113-124 | no processor makes or loses coins |
| `Transactions.RouteShape` | blockmgr/templatevalidator.go:92-147 | a transaction that goes through has bought its gas, run its processor on it and been refunded |
| `TransactionEffects.RouteHolding` | blockmgr/templatevalidator.go:92-147 | every address sees the effect of the transaction on it and nothing more; the sender pays for the gas used |
| `Overlay.TransactionStore.Get` | database/transactionstore.go:24-37 | what is seen under the key; caching it changes nothing that is seen |
| `Overlay.TransactionStore.Put` | database/transactionstore.go:39-42 | the key is seen with the value, every other as before |
| `Overlay.TransactionStore.Delete` | database/transactionstore.go:44-47 | the key is seen empty, every other as before |
| `Overlay.TransactionStore.Flush` | database/transactionstore.go:49-69 | the trie shows what the overlay showed, for every key and any order of writing |
| `Overlay.TransactionStore.CopyState` | database/transactionstore.go:75-97 | a fresh map with the same keys and contents, nil becoming empty |
| `Overlay.TransactionStore.RevertState` | database/transactionstore.go:71-73 | the snapshot becomes the live map |
| `Overlay.UndoneBySnapshot` | database/transactionstore.go:71-97 | a snapshot undoes any reads, writes and deletions made after it; a key then exists exactly when it did or was cached as nil |
| `Overlay.NilComesBackEmpty` | database/transactionstore.go:24-37 | a key read while absent exists after a snapshot and a revert |
| `Overlay.RevertedTwice` | database/transactionstore.go:71-97 | a second revert to the same snapshot keeps what was done in between, and restores every key if and only if that left every key as it was |
| `Overlay.SnapshotServesOnce` | database/transactionstore.go:71-97 | one write after a revert survives the second revert |
| `Store.Store.GetStorage` | chain/store/accountstore.go:60-80 | the account record, absent when there is none or it cannot be decoded; the ledger shown is the same |
| `Store.Store.PutStorage` | chain/store/accountstore.go:91-101 | the ledger shown has the new account record and is otherwise the same |
| `Store.Store.GetStakeStorage` | chain/store/stakestore.go:40-58 | the stake record, absent when there is none or it cannot be decoded; the ledger shown is the same |
| `Store.Store.PutStakeStorage` | chain/store/stakestore.go:60-68 | the ledger shown has the new stake record and is otherwise the same |
| `Store.Store.PutNonce` | chain/store/accountstore.go:131-139 | the nonce of one account is set in the ledger shown |
| `Store.Store.GetBalance` | chain/store/store.go:198-204 | the account balance and what has matured |
| `Store.Store.PutBalance` | chain/store/store.go:206-224 | takes the ledger shown where the value-level operation takes it |
| `Store.Store.AddBalance` | chain/store/store.go:167-178 | takes the ledger shown where the value-level operation takes it |
| `Store.Store.SubBalance` | chain/store/store.go:180-196 | takes the ledger shown where adding the opposite amount takes it |
| `Store.Store.CancelCreditToBalance` | chain/store/stakestore.go:359-384 | the sum of what has matured, the rest compacted in place to the front of the list |
| `Store.Store.VoteCredit` | chain/store/stakestore.go:154-196 | takes the ledger shown where the value-level operation takes it, with the same error |
| `Store.Store.CandidateCredit` | chain/store/stakestore.go:424-484 | takes the ledger shown where the value-level operation takes it, with the same error |
| `Store.Store.GetCandidateAddrs` | chain/store/stakestore.go:131-152 | the listed candidates; it fails exactly when the list is found as the empty string and the codec refuses that |
| `Store.Store.AddCandidateAddr` | chain/store/stakestore.go:75-113 | the candidate is listed, once, unless the list cannot be read |
| `Store.ListStuck` | chain/store/stakestore.go:131-152 | a list never written, but read before a revert, stays unreadable and empty where the codec refuses the empty string |
| `Store.Store.Cut` | chain/store/stakestore.go:90-98 | the deletion loop over a list that shifts under it drops the candidate |
| `Store.Store.TakeFront` | chain/store/stakestore.go:224-260 | the loop over credits computes what is taken and what is left, oldest first |
| `Store.Store.CancelVoteCredit` | chain/store/stakestore.go:198-336 | takes the ledger shown where the value-level operation takes it, with the same error and principal |
| `Store.Store.CancelCandidateCredit` | chain/store/stakestore.go:488-498 | takes the ledger shown where the value-level operation takes it, with the same error and principal |
| `Store.Store.AliasSet` | chain/store/accountstore.go:158-181 | refuses an empty or taken alias and otherwise sets it on both sides |
| `Store.Store.CopyState` | chain/store/store.go:301-303 | a fresh map that shows the ledger as it is |
| `Store.Store.RevertState` | chain/store/store.go:297-299 | the ledger shown is the one the map shows |
| `Block.BlockConserves` | blockmgr/templatevalidator.go:29-90 | over any list of transactions, cut off anywhere, coins held plus fees collected and gas left plus gas used stay what they were |
| `Block.BlockReplay` | blockmgr/templatevalidator.go:57-87 | the transactions kept give the same block alone: those skipped left no trace, and none of the kept is skipped |
| `Block.BlockContext.TakeTurn` | blockmgr/templatevalidator.go:64-85 | a transaction is kept with its effect, or store and pool are what they were before it, by the overlay's snapshot |
| `Block.BlockContext.SelectTxs` | blockmgr/templatevalidator.go:57-87 | the loop follows the value-level run of the block |
| `Block.BlockContext.ExecuteBlock` | blockmgr/templatevalidator.go:29-90 | ledger, pool, fees and kept transactions are those of the run; coins plus fees and gas left plus gas used are conserved; the kept transactions alone give the same block |
| `Block.RouteTransaction` | blockmgr/templatevalidator.go:92-147 | takes store and pool where the value-level routing takes them, with the same error and gas used |
| `Block.TxContext.PreCheck` | chain/transactionvalidator.go:135-146 | refuses a wrong nonce, a short balance or an exhausted pool and changes nothing, or buys the gas |
| `Block.TxContext.BuyGas` | chain/transactionvalidator.go:121-133 | takes the price from the sender and the gas from the pool, or nothing |
| `Block.TxContext.UseGas` | chain/transactionvalidator.go:112-119 | takes the amount from the gas left, or nothing when there is less |
| `Block.TxContext.RefundCoin` | chain/transactionvalidator.go:87-98 | gives the unused gas back to sender and pool |
| `Block.TxContext.Transfer` | chain/transfertx.go:20-54 | as the value-level processor, for transfers to oneself too |
| `Block.TxContext.Stake` | chain/votetx.go:24-55 | as the value-level processor |
| `Block.TxContext.CancelStake` | chain/cancelvotetx.go:25-49 | as the value-level processor |
| `Block.TxContext.Register` | chain/candidatetx.go:24-65 | as the value-level processor |
| `Block.TxContext.Unregister` | chain/cancelcandidatetx.go:25-50 | as the value-level processor |
| `Block.TxContext.NameAlias` | chain/aliastx.go:33-161 | as the value-level processor, the fee going to the hole address |
| `Block.TxContext.CheckAlias` | chain/aliastx.go:163-189 | accepts exactly the aliases of 5 to 20 allowed characters |
| `Block.GasPool.AddGas` | chain/gas_pool.go:29-35 | adds the amount, given room in 64 bits |
| `Block.GasPool.SubGas` | chain/gas_pool.go:39-45 | takes the amount, or nothing when there is less |
| `ChainTree.BlockNode.constructor` | types/blocknode.go:94-114 | a child stands one above its parent |
| `ChainTree.BlockNode.Ancestor` | types/blocknode.go:155-166 | the node of the branch at the height, or nil above it |
| `ChainView.ChainView.SetTip` | chain/chainview.go:111-143 | with its early stop the view becomes exactly the branch of the node |
| `ChainView.ChainView.NodeByHeight` | chain/chainview.go:185-191 | the node at the height, or nil |
| `ChainView.ChainView.Contains` | chain/chainview.go:222-224 | whether the node stands in the view at its height |
| `ChainView.ChainView.Next` | chain/chainview.go:245-251 | the child of the node in the view, nil exactly at the tip and outside |
| `ChainView.ChainView.FindFork` | chain/chainview.go:285-315 | the highest node that is in the view and on the way from the given node to the root, nil if none is |
| `Orphans.OrphanPool.RemoveOrphanBlock` | chain/orphan.go:61-92 | the orphan leaves both indexes, which describe the same set |
| `Orphans.OrphanPool.AddOrphanBlock` | chain/orphan.go:100-140 | the orphan enters both indexes, which describe the same set; others may expire |
| `Orphans.RemovedAgree` | chain/orphan.go:61-92 | the index by parent without an orphan describes the pool without it |
| `Orphans.InsertedAgree` | chain/orphan.go:131-139 | the index by parent with an orphan describes the pool with it |
| `ChainService.BlockIndex.AddNode` | chain/blockIndex.go:56-69 | a node with an indexed parent is indexed |
| `ChainService.BlockIndex.SetStatusFlags` | chain/blockIndex.go:86-91 | the flags are added to those set |
| `ChainService.BlockIndex.BranchIndexed` | chain/blockIndex.go:56-69 | all of the branch of an indexed node is indexed and starts at genesis |
| `ChainService.ChainService.constructor` | chain/chain.go:328-348 | genesis is indexed, good and the tip |
| `ChainService.ChainService.ConnectBlock` | chain/process.go:168-217 | a block that connects is good; one that fails leaves every invariant |
| `ChainService.ChainService.MarkState` | chain/process.go:346-350 | the view becomes the branch of a node all of whose branch is good |
| `ChainService.ChainService.GetReorganizeNodes` | chain/process.go:225-271 | lists that are empty, or exactly the paths from tip to fork and from fork to node, no attached node being known invalid |
| `ChainService.ChainService.ReorganizeChain` | chain/process.go:273-316 | the view becomes the branch of the node, or stays a good branch where storage or a block failed on the way |
| `ChainService.ChainService.AcceptBlock` | chain/process.go:100-166 | whatever happens the invariant holds; an accepted block is indexed; an unindexed parent crashes |
| `ChainService.ChainService.ProcessOrphans` | chain/process.go:54-91 | it terminates, and on success no orphan is left whose parent is the block or was adopted in the call |
| `ChainService.ChainService.ProcessBlock` | chain/process.go:17-52 | known, an orphan, a crash, accepted or failed, with the exact condition of the first three, and in every case the invariant holds |
| `ChainService.ZeroParentCrashes` | chain/process.go:35-38 | a block on the zero hash makes a new service dereference a missing parent |
| `ChainService.ChainService.BestBranch` | chain/process.go:17-316 | the view is the parent path from genesis to tip, heights are positions, and every node on it is indexed, known valid and not known invalid |
| `ChainService.Run` | chain/process.go:17-316 | the invariant holds after any blocks from genesis, whatever validators, storage and clock did |
| `Bloom.LookupIsThreeBits` | types/bloom9.go:115-136 | the lookup of a topic in a filter is the test of its three bits |
| `Bloom.BitBloom9` | types/bloom9.go:115-127 | the filter of a topic has exactly its three bits set |
| `Bloom.Generator.AddBloom` | common/bloombits/generator.go:58-81 | each vector gets the filter's bit at the next place and nothing else |
| `Bloom.Generator.Bitset` | common/bloombits/generator.go:85-93 | when full, bit k of the vector of a filter bit is that bit of filter k |
| `Matcher.NewMatcher` | common/bloombits/matcher.go:92-132 | the index triples that remain pass a filter exactly when the rules match it |
| `Matcher.SubMatch` | common/bloombits/matcher.go:260-378 | one rule over a section keeps exactly the blocks that pass one of its clauses |
| `Matcher.Emit` | common/bloombits/matcher.go:183-211 | the loop over a section ends, with exactly the matching blocks of the range, if and only if it does not step over the largest 64-bit number; a section that goes beyond that number gives none |
| `Matcher.EndsNeedsRoom` | common/bloombits/matcher.go:194-211 | an input for which it does |
| `Matcher.MatchSection` | common/bloombits/matcher.go:183-211 | the matching blocks of a section within the range, even when the section is dropped early, unless its matches let the loop overrun |
| `Matcher.EndsExactly` | common/bloombits/matcher.go:194-211 | whether the loop over the vector overruns, in terms of which blocks match |
| `Matcher.MatchedBlocks` | common/bloombits/matcher.go:147-216 | for every range of 64-bit numbers: ascending and once each, exactly its blocks whose filter passes every rule, or an overrun, exactly when the last section ends at 2^64, has a match, and the loop comes to its last block or to an empty last byte |
| `Matcher.InLimitAnswers` | common/bloombits/matcher.go:147-216 | a range whose last section ends below 2^64 is answered in full |
| `Matcher.LastBlocksNeedRoom` | common/bloombits/matcher.go:183-211 | ranges up to the largest number that overrun, or lose the last sixteen blocks |
| `Matcher.IndexAndMatch` | common/bloombits/matcher.go:92-216 | from the filters through the generator's vectors to the matches: the same answer |
| `Distributor.NeverLost` | common/bloombits/matcher.go:382-508 | in every state each section asked for is queued, with a retriever or delivered, or was passed over by a short delivery |
| `Distributor.Distributor.Assign` | common/bloombits/matcher.go:397-408 | a bit with requests goes to a waiting retriever or is put down as unallocated |
| `Distributor.Distributor.OnRequest` | common/bloombits/matcher.go:422-431 | the request is queued in order and the invariant holds |
| `Distributor.Distributor.OnRetriever` | common/bloombits/matcher.go:433-447 | the retriever gets the unallocated bit with the lowest section |
| `Distributor.Distributor.OnRetrieval` | common/bloombits/matcher.go:453-468 | the retriever gets the first sections of its bit, the rest being assigned again |
| `Distributor.Distributor.OnDelivery` | common/bloombits/matcher.go:470-505 | sections with data are delivered, those without are queued again, those behind the last vector are lost |
| `Distributor.FinalLost` | common/bloombits/matcher.go:470-505 | what a run has lost of a bit is, in order, what its deliveries left behind |
| `Distributor.NothingLostIff` | common/bloombits/matcher.go:470-505 | a run loses nothing if and only if every delivery has a vector for each section of its task |
| `Distributor.CompleteLosesNothing` | common/bloombits/matcher.go:470-505 | so a schedule of complete deliveries loses nothing |
| `Distributor.ShortDeliveryLoses` | common/bloombits/matcher.go:470-505 | one section, asked for, fetched and delivered without a vector, is lost |
| `Distributor.Run` | common/bloombits/matcher.go:382-508 | a schedule of events is played by a legal run; every section asked for is kept or was left behind by one of its short deliveries, and all are kept when each delivery is complete |
| `Compress.BitsetEncodeBytes` | common/bitutil/compress.go:71-97 | the recursive encoding |
| `Compress.BitsetDecodePartialBytes` | common/bitutil/compress.go:130-170 | the recursive decoding, with its errors |
| `Compress.CompressBytes` | common/bitutil/compress.go:60-67 | the encoding when it is shorter, the data otherwise |
| `Compress.DecompressBytes` | common/bitutil/compress.go:102-124 | the data when it has the target length, its decoding when it is shorter, an error when it is longer |
| `Compress.RoundTrip` | common/bitutil/compress.go:60-124 | compressed data decompresses to what it was, for every input |
| `Compress.DecodeEncoded` | common/bitutil/compress.go:71-170 | decoding an encoding followed by anything gives the data and the length of the encoding |
| `Compress.AcceptedIsCanonical` | common/bitutil/compress.go:71-124 | whenever decoding accepts an input, encoding the output gives the input back |
| `NonceHeap.NonceHeap.Push` | blockmgr/txpool/txlist.go:20-22 | a heap with the nonce added |
| `NonceHeap.NonceHeap.Pop` | blockmgr/txpool/txlist.go:24-30 | the least nonce, and a heap of the others |
| `NonceHeap.NonceHeap.Remove` | blockmgr/txpool/txlist.go:143-143 | a heap of the others |
| `NonceHeap.NonceHeap.Init` | blockmgr/txpool/txlist.go:100-100 | a heap of the same nonces |
| `NonceHeap.RootLeast` | blockmgr/txpool/txlist.go:70-70 | the root of a heap is its least entry |
| `SortedMap.ListingUnique` | blockmgr/txpool/txlist.go:188-205 | a map has one listing by rising nonce |
| `SortedMap.TxSortedMap.Put` | blockmgr/txpool/txlist.go:55-61 | the map with the transaction; heap, map and cache agree |
| `SortedMap.TxSortedMap.Forward` | blockmgr/txpool/txlist.go:66-80 | exactly the transactions below the threshold, in order, are taken from the front of the sorted list |
| `SortedMap.TxSortedMap.Filter` | blockmgr/txpool/txlist.go:84-105 | exactly the transactions that the filter picks are removed, each once |
| `SortedMap.TxSortedMap.Cap` | blockmgr/txpool/txlist.go:109-130 | the sorted list is cut to the limit, and what is dropped is the rest of it from the end |
| `SortedMap.TxSortedMap.Remove` | blockmgr/txpool/txlist.go:134-151 | the nonce is removed from map and heap, and whether it was there |
| `SortedMap.TxSortedMap.Ready` | blockmgr/txpool/txlist.go:160-178 | the maximal run of consecutive nonces at the front, when it begins no later than asked; 64-bit wrap-around of the counter does not matter |
| `SortedMap.TxSortedMap.Len` | blockmgr/txpool/txlist.go:181-183 | the length of the sorted listing, which is the size of the heap |
| `SortedMap.TxSortedMap.Flatten` | blockmgr/txpool/txlist.go:188-205 | the map sorted from scratch, cached or not |
| `TxList.TxList.Add` | blockmgr/txpool/txlist.go:245-253 | a listed transaction is never overwritten |
| `TxList.TxList.ReplaceOldTx` | blockmgr/txpool/txlist.go:231-243 | a listed transaction gives way exactly to a dearer one |
| `TxList.TxList.Remove` | blockmgr/txpool/txlist.go:308-319 | a strict list loses everything above the nonce too and stays without gaps |
| `TxList.Run` | blockmgr/txpool/txlist.go:41-205 | after any sequence of operations heap, map and cache agree, the contents are those of a plain map, and flattening sorts it |

## Findings

Properties that do not hold of the code as one would first put them. Each is shown by a concrete input and
followed by the exact condition under which the code does what is wanted.

- **Normalisation can lose a carry** (crypto/secp256k1/field.go:245-364). The first pass adds carries to 32-bit
  limbs. Failing input: limb 0 equal to 2^32 - 1, limb 9 equal to 2^22, all others 0 (`Field.NormalizeNeedsRoom`).
  The result is the residue modulo p exactly when no limb overflows while carries are gathered
  (`Field.NormalizeExact`); every number of magnitude up to 63 is within that condition (`Field.SmallLimbsFit`).
- **A written balance may not read back** (chain/store/store.go:206-224). `PutBalance` leaves matured credits
  alone at height 0. Failing input: height 0, waiting time 0, a credit of 5 cancelled at height 0
  (`Maturity.PutBalanceNeedsHeight`). A balance reads back as written exactly when the height is positive or no
  credit counts as matured (`Maturity.PutBalanceReadsBack`), so for all ledgers exactly when the height or the
  waiting time is positive (`Maturity.SettlesExactly`).
- **Compact keys are not all canonical** (common/trie/encoding.go:37-66). `compactToHex` accepts any bytes. Failing
  input: the single byte 0x40 (`TrieEncoding.ExpandNeedsFlag`). Encoding what was decoded gives the same bytes
  exactly when there is a first byte, its high nibble is at most 3, and its low nibble is 0 where the key has an
  even number of nibbles (`TrieEncoding.ExpandRoundTrip`).
- **A snapshot serves once** (database/transactionstore.go:71-97). Reverting makes the snapshot the live map, so
  that later writes reach it. Failing input: revert, write any key, revert to the same snapshot
  (`Overlay.SnapshotServesOnce`). A second revert restores every key exactly when what was done since the first
  left every key as it was (`Overlay.RevertedTwice`).
- **An absent key may exist after a revert** (database/transactionstore.go:83-87). A key that was read and not
  found is cached as nil and copied as an empty slice. Failing input: any absent key, read and then reverted over
  (`Overlay.NilComesBackEmpty`). After a revert a key exists exactly when it did before or
  had been cached as nil (`Overlay.UndoneBySnapshot`). The store's own operations never leave an alias cached as
  nil, which is why aliases are undone exactly (`Store.Store.AliasPut`).
- **A list of candidates may become unreadable** (chain/store/stakestore.go:75-152). Whether the codec fails on the
  empty string is a parameter. If it does, a list that was never written and is read before a revert comes back as the
  empty string, and no candidate can be added any more; the callers pass over the error (`Store.ListStuck`). The list
  is read exactly when it is not found as the empty string or the codec accepts that
  (`Store.Store.GetCandidateAddrs`); once written it stays readable through every operation and revert.
- **The matcher may step over the largest block number** (common/bloombits/matcher.go:183-211). The loop over a
  section's blocks counts in 64 bits and skips empty bytes whole; the last block of a section that goes beyond 2^64
  wraps around to below the first. Failing inputs: one empty byte, section and range beginning at 2^64 - 8
  (`Matcher.EndsNeedsRoom`); the range of the block 2^64 - 1 alone, if it matches, with sections of 8; with sections of
  24 the last sixteen blocks are never found (`Matcher.LastBlocksNeedRoom`). For every range the answer is exact:
  it overruns if and only if its last section ends at 2^64, has a match, and the loop comes to the last block or to
  the start of an empty last byte; otherwise it has all matches, except those of a section beyond 2^64
  (`Matcher.MatchedBlocks`). A range whose last section ends below 2^64 is answered in full
  (`Matcher.InLimitAnswers`).
- **A short delivery loses sections** (common/bloombits/matcher.go:478-486). The loop over a delivery runs over its
  bit vectors, so that sections behind the last vector are neither delivered nor asked for again. Failing input:
  one section, asked for, fetched and answered by a delivery without vectors (`Distributor.ShortDeliveryLoses`). What
  a run loses is exactly what its deliveries leave behind (`Distributor.FinalLost`), which is nothing if and only if
  every delivery has a vector, be it empty, for each section of its task (`Distributor.NothingLostIff`).
- **A block on the zero hash crashes the service** (chain/process.go:35-38, 100-102). Such a block is not taken for an
  orphan, and its missing parent is dereferenced. Failing input: any such block, sent to a new service
  (`ChainService.ZeroParentCrashes`). A block crashes it exactly when neither tree nor pool know its hash, its parent is
  the zero hash, and the tree has no block of that hash (`ChainService.ChainService.ProcessBlock`).
- **A copy of a squeezing sponge repeats output** (crypto/sha3/sha3.go:69-78). The copy begins as far before the end
  of the rate as the buffer's capacity, which counts from the end of the storage of 168 bytes. Failing input: the rate
  136 of Keccak-256, a read of 32 bytes, then a sum, which gives the same 32 bytes; after a shorter read it fails
  (`Sponge.ReadThenSum`). The copy continues the output exactly when the rate is 168; below, it begins 168 - rate bytes
  early, and there is none exactly when fewer bytes have been given of the current block (`Sponge.State.Clone`).
- **A waiting time may end at once** (chain/store/stakestore.go:347, 368). The height at which a cancelled credit
  matures is a 64-bit sum. Failing input: a credit cancelled at height 1 with a waiting time of 2^64 - 1
  (`Ledger.MaturesAtOnce`). From its cancellation on, the test is right exactly when the sum is below 2^64
  (`Ledger.MatureInWord`).

## Left out

- Networking, peers, RPC, command line, configuration, services, block synchronisation, wallet and encryption code.
- The point formulas of secp256k1 (crypto/secp256k1/btcec.go:129-603): addition and doubling are the group law.
- Primality of p and N: Inverse is the (p - 2)-th power, not proved to be the inverse. The bound that the code's comments give for a product before its last reduction is not claimed; limb 2 may reach 0x4080000.
- Field elements from and to bytes, addition and small multiples.
- RLP, the binary codec and hash functions: injective. In the trie, nodes shorter than 32 bytes that the hasher embeds in their parent are hashed like all others; node flags, key prefixes in errors and iterators are not modelled.
- The assembly and unaligned variants of Keccak. The unrolled text of a round is five row methods called with the source's index constants.
- In the trie database: preimages, reference counts, dereferencing, Cap, byte sizes, the entry of the meta-root, and the backward link of the first node of the flush list. How large a batch grows is left open.
- TrieDb.Database.Insert: the children of the node are known, as they are when a trie is committed from the leaves up; the source does not look.
- TrieDb.Database.Reference: a reference from the meta-root, which only dereferencing looks at, is not modelled.
- Contract transactions and the EVM, receipts and logs. RefundCoin swallows an error that the model's store does not have. The waiting time is a constant of the store. Contents of candidate data are parsed elsewhere.
- Store: an empty value reads as absent, as everywhere in the source where decoding errors are ignored. Addresses, nonces, amounts and heights are unbounded, except that the next nonce wraps and that the maturing of a cancelled credit is compared with the 64-bit sum of its height and the waiting time (`Ledger.MatureInWord`).
- Block.BlockContext.SelectTxs: where the codec fails on the empty string, the list of candidates has been written before; every operation keeps it written.
- Store.Store.AliasSet: queries of aliases from outside the modelled operations, which may leave an alias cached as nil, are not modelled.
- StoreDB.Delete, which writes through to the trie, recovery of a trie by its root, and committing it.
- Block.GasPool.AddGas: the panic beyond 64 bits is a precondition; block execution is proved never to reach it.
- The chain's own block executor (chain/blockexecutor.go): ConnectBlock succeeds or fails freely, and a failed execution does not mark the node invalid, as in the source.
- Chain: monotone tip height and the meaning of a returned true are not claimed: an empty detach list does nothing, and a reorganisation may stop midway. Block hashes are injective. The bound on the orphan pool, flushing of node states and recovery at start are left out.
- Matcher: section sizes are multiples of 8, topics are their hashes, and the session's quit is not modelled.
- Distributor: until shutdown. Retrievers fetch once what they were given and deliver once, no more vectors than sections. Schedulers and their caches are left out.
- Distributor.Distributor.OnRequest: the section number is below 2^64 - 1, the value the search for the lowest starts from; a block number divided by a section size always is.
- SortedMap.Sort: stands for the library's sort by its promise. Heap operations follow the library's sifting.
- The pool of transactions and its list by price (blockmgr/txpool/txlist.go:381-435, blockmgr/txpool/transactionPool.go).
