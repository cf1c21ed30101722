# Central blockchain ledger: a verified model

This project models the core of `central_blockchain.py`, an educational blockchain run by a single authority. A `CentralBlockchain` owns an in-memory chain of `Block`s. Each block carries an index, a timestamp, a JSON payload, the previous block's hash, a nonce and its own hash. The ledger:

- seals a genesis block by hashing it directly, without mining;
- appends new blocks with `setBlock`, which builds a candidate on top of the tip, mines it and pushes it;
- mines with `mineBlock`, which advances the nonce one step at a time until the digest starts with `"0" * difficulty`;
- hands out blocks by position with `getBlock`;
- lists the chain with `blocksExplorer`;
- audits the whole chain with `is_valid`.

The model has three modules, one per part:

- `Blocks` (`block.dfy`): the payload type `Json`. The five hashed fields `Preimage`. The block as a value, `BlockRecord`, and as a mutable object, the class `Block`. Also `Zeros` (`"0" * n`) and `StartsWith` (`str.startswith`). The reads frame of `Block.ComputeHash` names only `index`, `timestamp`, `data`, `previous_hash` and `nonce`. Dafny therefore checks that the digest never depends on the stored `hash`.
- `ProofOfWork` (`proof_of_work.dfy`): what the nonce search promises. `FirstFit` holds of a nonce that is the first one, at or after the starting nonce, whose digest starts with the prefix.
- `Ledger` (`ledger.dfy`): the class `CentralBlockchain`. Its chain is a `seq<Block<T>>` that `SetBlock` reassigns. `MineBlock` updates a block's `nonce` and `hash` in place. The validity rule of `is_valid` is the predicate `ValidChain` over the value view `BlocksExplorer()`, and `IsValid` is the loop proved against it.

The digest (SHA-256 of the sorted-key, compact JSON encoding) is an arbitrary total function `Hasher<T>`. The ledger receives it at construction as the constant `digest`. No property depends on what it computes. The clock reading is a type parameter `T` that the model never computes with. Each operation that reads the clock takes the reading as a parameter `now`.

`is_valid` checks the genesis block only against its digest, with no prefix test (central_blockchain.py:146-147). `ValidChain` follows this rule. `is_valid` does not check index succession. Index succession is a separate predicate, `IndexSuccession`, and `SetBlock` preserves it. The constructor accepts any integer difficulty, and `"0" * d` is empty for `d <= 0` (central_blockchain.py:68-69). `Zeros` models that.

## Model

| member | source | states |
|---|---|---|
| `Blocks.Zeros` | central_blockchain.py:69 | `"0" * n` has length `max(n, 0)` and only '0' characters, so a difficulty of zero or below gives the empty prefix |
| `Blocks.LeadingZeros` | central_blockchain.py:134 | a digest starts with `"0" * n` exactly when it has at least `n` characters and the first `n` are all '0' |
| `Blocks.DigestIgnoresStoredHash` | central_blockchain.py:47-56 | replacing a block's stored hash leaves its digest unchanged: only the five other fields are hashed |
| `Blocks.Block.ComputeHash` | central_blockchain.py:47-56 | the digest of the block's five hashed fields; its reads frame names only `index`, `timestamp`, `data`, `previous_hash` and `nonce`, so setting or changing `hash` can never change the digest |
| `Blocks.Block.Record` | central_blockchain.py:126 | the block as a value (`asdict`): it holds the same five hashed fields and the same stored hash as the object |
| `Blocks.Block.constructor` | central_blockchain.py:38-45 | a new block holds exactly the six given field values |
| `ProofOfWork.FirstFitUnique` | central_blockchain.py:132-137 | the search is deterministic: at most one nonce is the first fitting nonce from a given start |
| `ProofOfWork.FirstFitExists` | central_blockchain.py:132-137 | if some nonce at or after the start fits, a first fitting nonce exists at or before it, so the search stops |
| `ProofOfWork.ZeroDifficultyFirstFit` | central_blockchain.py:69 | with difficulty zero or below, the first fit is exactly the starting nonce (both directions) |
| `ProofOfWork.OverlongPrefixNeverFits` | central_blockchain.py:56 | when every digest has 64 characters, as `hexdigest()` does, no nonce fits for a difficulty above 64, so the search at lines 132-137 never stops |
| `ProofOfWork.MinedDigestLeadingZeros` | central_blockchain.py:128-136 | a mined digest has at least `difficulty` characters and its first `difficulty` characters are '0' |
| `Ledger.GenesisChainValid` | central_blockchain.py:80-83 | the one-block genesis chain is valid under any prefix; genesis has index 0 and a previous hash of 64 '0' characters |
| `Ledger.ValidExtension` | central_blockchain.py:148-157 | a chain plus one block is valid exactly when the chain is valid and the block links to the tip, matches its digest and starts with the prefix; so an append preserves validity, and dropping the last block of a valid chain of two or more blocks keeps it valid |
| `Ledger.ValidPrefix` | central_blockchain.py:148-157 | every non-empty prefix of a valid chain is valid |
| `Ledger.IndexSuccessionExtension` | central_blockchain.py:104-106 | a chain plus one block has index succession exactly when the chain has it and the new index is the tip's plus one |
| `Ledger.IndexIsPosition` | central_blockchain.py:81-106 | in a chain that starts at index 0 with index succession, every block's index equals its position |
| `Ledger.TamperingDetected` | central_blockchain.py:144-157 | in a valid chain, replacing any block by one with the same stored hash but different hashed fields (index, timestamp, payload, previous hash or nonce) whose digest differs makes the chain invalid, including for the genesis block |
| `Ledger.StoredHashForgeryDetected` | central_blockchain.py:144-157 | in a valid chain, overwriting any block's stored hash with a different string makes the chain invalid, whatever the digest computes |
| `Ledger.Snapshot` | central_blockchain.py:126 | the value view has one record per block, in order, each holding that block's six fields |
| `Ledger.CentralBlockchain.constructor` | central_blockchain.py:67-97 | a chain loaded from storage is taken as is, without validation; when nothing was loaded, the chain is the genesis block stamped `now`; `prefix` is `"0" * difficulty` |
| `Ledger.CentralBlockchain.CreateGenesisBlock` | central_blockchain.py:80-83 | returns a new block at index 0 with the genesis payload, a previous hash of 64 zeros and nonce 0, whose hash is its digest and was not mined |
| `Ledger.CentralBlockchain.BlocksExplorer` | central_blockchain.py:124-126 | the explorer lists every block of the chain in order, as values |
| `Ledger.CentralBlockchain.GetBlock` | central_blockchain.py:118-122 | a block is returned exactly when `0 <= index < len(chain)`, and then it is `chain[index]`; negative and too-large indexes give nothing; the chain is only read |
| `Ledger.CentralBlockchain.MineBlock` | central_blockchain.py:128-137 | returns the same block. Its nonce is the first at or after the start whose digest starts with the prefix, so no nonce in between fits. Only `nonce` and `hash` change, and `hash` is the digest at the final nonce. With difficulty zero or below the nonce is unchanged |
| `Ledger.CentralBlockchain.NextCandidate` | central_blockchain.py:104-112 | the candidate has index tip + 1, the tip's hash as previous hash, the given time and payload, and nonce 0 |
| `Ledger.CentralBlockchain.SetBlock` | central_blockchain.py:100-116 | the chain grows by exactly one new block and earlier blocks are unchanged. The new block has index tip + 1, the tip's hash as previous hash, the given time and payload. It is the candidate mined from nonce 0 to its first fit, and its hash starts with the prefix. A valid chain stays valid and index succession is kept |
| `Ledger.CentralBlockchain.IsValid` | central_blockchain.py:140-157 | returns true exactly when the chain satisfies `ValidChain`: it is non-empty, genesis's hash is its digest, and every later block links, matches its digest and starts with the current prefix |

## Left out

- SHA-256 (FIPS 180-4) and the canonical JSON encoding (`json.dumps` with sorted keys and compact separators): foreign library code. The digest is an arbitrary function of the five hashed fields.
- The clock (`time()`): each reading is a parameter `now` of an opaque type `T`. The floating-point timestamp is never computed with.
- The payload type `Any`: modelled as a closed `Json` datatype. JSON numbers are kept as their literal text, because the model never does arithmetic on them.
- File persistence (`_persist`, `_load`): file I/O and JSON parsing. What `_load` yields is the constructor parameter `stored`, which is empty when the file is missing, unreadable or empty. Saving after each append is not modelled.
- `build_parser`, `main` and the Flask service (lines 160-242): argument parsing, printing and an HTTP server, outside the ledger core.
- Ledger.CentralBlockchain.MineBlock: it does not prove termination for an arbitrary digest, because the source's search is unbounded. The method requires that some nonce at or after the start fits. `SetBlock` requires the same of its candidate from nonce 0.
- Ledger.CentralBlockchain.SetBlock: a difficulty above 64 is excluded by its precondition. In the source `hexdigest()` always yields 64 characters, so `startswith("0" * d)` never holds for `d > 64`. `mineBlock` then loops forever and `setBlock` never returns (for example `--add x --difficulty 65`). `OverlongPrefixNeverFits` proves that no nonce fits in that case.
- `int(difficulty)` conversion of the argument: the difficulty is an `int` from the start.
- Concurrent appends through the HTTP service: the model assumes one append at a time; the source's service does not enforce this. `app.run` serves requests on threads, and `setBlock` reads the tip, mines and appends without a lock, so two requests can build on the same tip.
