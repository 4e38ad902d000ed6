/** The counters that power memory banks up and down. */
module PowerBanks {
  import opened HeapBanks

  lemma TimesOrder(bankSize: nat, b: nat, c: nat)
    ensures b <= c ==> b * bankSize <= c * bankSize
  {
  }

  lemma BankOf(a: nat, bankSize: nat)
    requires bankSize > 0
    ensures a / bankSize >= 0 && a / bankSize * bankSize <= a < a / bankSize * bankSize + bankSize
  {
  }

  lemma BanksInOrder(bankSize: nat, b: nat, c: nat)
    requires b < c
    ensures b * bankSize + bankSize <= c * bankSize
  {
    assert (b + 1) * bankSize <= c * bankSize;
  }

  /** `n` bytes inside bank `bank` count for that bank and for no other. */
  lemma CountsOnce(first: int, bankSize: nat, bank: nat, b: nat, pos: int, n: nat)
    requires first + bank * bankSize <= pos && pos + n <= first + bank * bankSize + bankSize
    ensures var lo := first + b * bankSize;
      Into(pos + n, lo, lo + bankSize) - Into(pos, lo, lo + bankSize) == if b == bank then n else 0
  {
    if b < bank {
      BanksInOrder(bankSize, b, bank);
    } else if bank < b {
      BanksInOrder(bankSize, bank, b);
    }
  }

  class Banks {
    const first: nat
    const bankSize: nat
    const pwdCount: array<int>
    // whether the hardware keeps the bank powered
    const powered: array<bool>

    /** Banks with nothing counted are powered. */
    constructor (first: nat, bankSize: nat, banks: nat)
      requires bankSize > 0
      ensures this.first == first && this.bankSize == bankSize && pwdCount.Length == banks
      ensures Wired() && Exact() && fresh(pwdCount) && fresh(powered)
      ensures forall b :: 0 <= b < banks ==> pwdCount[b] == 0
    {
      this.first, this.bankSize := first, bankSize;
      pwdCount, powered := new int[banks](_ => 0), new bool[banks](_ => true);
    }

    ghost predicate Wired() {
      bankSize > 0 && pwdCount.Length == powered.Length
    }

    function Low(b: nat): int {
      first + b * bankSize
    }

    function Pos(b: nat): int -> int {
      Bank(Low(b), Low(b) + bankSize)
    }

    lemma PosMonotone(b: nat)
      ensures Monotone(Pos(b))
    {
      BankMonotone(Low(b), Low(b) + bankSize);
    }

    /** `[a, e)` lies in the banks. */
    predicate Inside(a: int, e: int) {
      first <= a && e <= first + pwdCount.Length * bankSize
    }

    ghost predicate Bounded()
      reads pwdCount
    {
      forall b :: 0 <= b < pwdCount.Length ==> 0 <= pwdCount[b] <= bankSize
    }

    /** A bank is powered down exactly when its counter is the bank size. */
    ghost predicate Exact()
      reads pwdCount, powered
      requires Wired()
    {
      Bounded() && forall b :: 0 <= b < pwdCount.Length ==> (powered[b] <==> pwdCount[b] != bankSize)
    }

    /** Powers the banks in `ctrl` up or down. */
    method PowerCtrl(ctrl: set<nat>, power: bool)
      modifies powered
      ensures forall b :: 0 <= b < powered.Length ==> powered[b] == if b in ctrl then power else old(powered[b])
    {
      forall b | 0 <= b < powered.Length && b in ctrl {
        powered[b] := power;
      }
    }

    /** Adds `n` to one counter, or takes it off, and notes whether the bank
        must be powered up or down. */
    method Touch(bank: nat, n: nat, free: bool, ctrl: set<nat>) returns (ctrl': set<nat>)
      requires bank < pwdCount.Length
      modifies pwdCount
      ensures pwdCount[..] == old(pwdCount[..])[bank := old(pwdCount[bank]) + Signed(free, n)]
      ensures ctrl' == if Toggles(free, old(pwdCount[bank]), pwdCount[bank]) then ctrl + {bank} else ctrl
    {
      ctrl' := ctrl;
      if !free && pwdCount[bank] == bankSize {
        ctrl' := ctrl' + {bank};
      }
      pwdCount[bank] := pwdCount[bank] + (if free then n else 0 - n);
      if pwdCount[bank] == bankSize {
        ctrl' := ctrl' + {bank};
      }
    }

    function Signed(free: bool, n: int): int {
      if free then n else 0 - n
    }

    predicate Toggles(free: bool, before: int, after: int) {
      (!free && before == bankSize) || after == bankSize
    }

    /** How many bytes of `[a, e)` are in bank `b`. */
    function Part(b: nat, a: int, e: int): int {
      Pos(b)(e) - Pos(b)(a)
    }

    /** All of a bank is counted exactly when all of it lies in `[a, e)`. */
    lemma WholeBankCounted(b: nat, a: int, e: int)
      requires a <= e && bankSize > 0
      ensures 0 <= Part(b, a, e) <= bankSize
      ensures Part(b, a, e) == bankSize <==> a <= Low(b) && Low(b) + bankSize <= e
    {
    }

    /** That is how many addresses of the stretch are in the bank. */
    lemma PartCounts(b: nat, a: int, e: int)
      requires a <= e && bankSize > 0
      ensures var low := first + b * bankSize; Part(b, a, e) == |Range(a, e) * Range(low, low + bankSize)|
    {
      hide Bank, Into;
      BankIs(Low(b), Low(b) + bankSize);
      IntoCounts(a, e, Low(b), Low(b) + bankSize);
    }

    /** The counters `now` are the counters `was` with the bytes of `[a, e)`
        accounted. */
    ghost predicate Accounted(was: seq<int>, now: seq<int>, free: bool, a: int, e: int) {
      match free
      case true => |was| == |now| && forall b :: 0 <= b < |now| ==> now[b] == was[b] + Part(b, a, e)
      case false => |was| == |now| && forall b :: 0 <= b < |now| ==> now[b] == was[b] - Part(b, a, e)
    }

    /** `ctrl` is the set of banks to power up or down after that. */
    ghost predicate Noted(was: seq<int>, now: seq<int>, free: bool, a: int, e: int, ctrl: set<nat>) {
      match free
      case true =>
        |was| == |now| && forall b :: 0 <= b < |now| ==>
          (b in ctrl <==> Part(b, a, e) != 0 && now[b] == bankSize)
      case false =>
        |was| == |now| && forall b :: 0 <= b < |now| ==>
          (b in ctrl <==> Part(b, a, e) != 0 && (was[b] == bankSize || now[b] == bankSize))
    }

    lemma StepCounts(was: seq<int>, now: seq<int>, free: bool, a: int, pos: int, n: nat, bank: nat,
                     ctrl: set<nat>, ctrl': set<nat>)
      requires Accounted(was, now, free, a, pos) && Noted(was, now, free, a, pos, ctrl)
      requires bank < |now| && 0 < n && Low(bank) <= pos && pos + n <= Low(bank) + bankSize
      requires pos == a || (a < pos && pos == Low(bank))
      requires ctrl' == if Toggles(free, now[bank], now[bank] + Signed(free, n)) then ctrl + {bank} else ctrl
      ensures var now' := now[bank := now[bank] + Signed(free, n)];
        Accounted(was, now', free, a, pos + n) && Noted(was, now', free, a, pos + n, ctrl')
    {
      forall b | 0 <= b < |now|
        ensures Part(b, a, pos + n) == Part(b, a, pos) + (if b == bank then n else 0)
      {
        CountsOnce(first, bankSize, bank, b, pos, n);
      }
      assert Part(bank, a, pos) == 0;
    }

    /** An address inside the banks is in one of them. */
    lemma BankExists(bank: nat, pos: int)
      requires Low(bank) <= pos && Inside(pos, pos + 1) && bankSize > 0
      ensures bank < pwdCount.Length
    {
      TimesOrder(bankSize, pwdCount.Length, bank);
    }

    /** Powering the noted banks keeps power and counters in step. */
    lemma PowerFollows(was: seq<int>, now: seq<int>, free: bool, a: int, e: int, ctrl: set<nat>, b: nat)
      requires Accounted(was, now, free, a, e) && Noted(was, now, free, a, e, ctrl) && a <= e
      requires b < |now| && 0 <= was[b] <= bankSize && 0 <= now[b] <= bankSize
      ensures (if b in ctrl then !free else was[b] != bankSize) <==> now[b] != bankSize
    {
    }

    lemma NothingYet(now: seq<int>, free: bool, a: int)
      ensures Accounted(now, now, free, a, a) && Noted(now, now, free, a, a, {})
    {
    }

    /** Adds the bytes of a block to the counters of its banks, or takes them
        off, and powers the banks whose counter reaches, or leaves, the bank
        size. */
    method Account(chunk: nat, size: nat, free: bool)
      requires Wired() && first <= chunk && (size > 0 ==> Inside(chunk, chunk + size))
      modifies pwdCount, powered
      ensures Accounted(old(pwdCount[..]), pwdCount[..], free, chunk, chunk + size)
      ensures old(Exact()) && Bounded() ==> Exact()
    {
      hide Accounted, Noted;
      ghost var was := pwdCount[..];
      var ctrl := AccountBanks(chunk, size, free);
      if ctrl != {} {
        PowerCtrl(ctrl, !free);
      }
      if old(Exact()) && Bounded() {
        forall b | 0 <= b < pwdCount.Length ensures powered[b] <==> pwdCount[b] != bankSize {
          PowerFollows(was, pwdCount[..], free, chunk, chunk + size, ctrl, b);
        }
      }
    }

    /** The part of a block that is in one bank. */
    method AccountOne(bank: nat, n: nat, free: bool, ctrl: set<nat>, ghost was: seq<int>, ghost a: nat, ghost pos: nat)
      returns (ctrl': set<nat>)
      requires Wired() && 0 < n && Low(bank) <= pos && pos + n <= Low(bank) + bankSize && Inside(pos, pos + 1)
      requires pos == a || (a < pos && pos == Low(bank))
      requires Accounted(was, pwdCount[..], free, a, pos) && Noted(was, pwdCount[..], free, a, pos, ctrl)
      modifies pwdCount
      ensures Accounted(was, pwdCount[..], free, a, pos + n) && Noted(was, pwdCount[..], free, a, pos + n, ctrl')
    {
      BankExists(bank, pos);
      ghost var now := pwdCount[..];
      ctrl' := Touch(bank, n, free, ctrl);
      StepCounts(was, now, free, a, pos, n, bank, ctrl, ctrl');
    }

    /** The loop over the banks of a block. */
    method AccountBanks(chunk: nat, size: nat, free: bool) returns (ctrl: set<nat>)
      requires Wired() && first <= chunk && (size > 0 ==> Inside(chunk, chunk + size))
      modifies pwdCount
      ensures Accounted(old(pwdCount[..]), pwdCount[..], free, chunk, chunk + size)
      ensures Noted(old(pwdCount[..]), pwdCount[..], free, chunk, chunk + size, ctrl)
    {
      var chunkAddr := chunk - first;
      BankOf(chunkAddr, bankSize);
      var bank := chunkAddr / bankSize;
      var addr := bank * bankSize;
      var iterSize := addr + bankSize - chunkAddr;
      var left := size;
      ctrl := {};
      NothingYet(pwdCount[..], free, chunk);
      hide Accounted, Noted, Pos;
      ghost var pos := chunk;
      if iterSize > left {
        iterSize := left;
      }
      while left > 0
        invariant left >= 0 && pos == chunk + size - left && bank >= 0 && first + addr == Low(bank)
        invariant left > 0 ==> Low(bank) <= pos < Low(bank) + bankSize
        invariant left > 0 ==> 0 < iterSize <= left && pos + iterSize <= Low(bank) + bankSize
        invariant left > 0 ==> iterSize == left || pos + iterSize == Low(bank) + bankSize
        invariant pos == chunk || (chunk < pos && (left > 0 ==> pos == Low(bank)))
        invariant Accounted(old(pwdCount[..]), pwdCount[..], free, chunk, pos)
        invariant Noted(old(pwdCount[..]), pwdCount[..], free, chunk, pos, ctrl)
      {
        ctrl := AccountOne(bank, iterSize, free, ctrl, old(pwdCount[..]), chunk, pos);
        NextBank(bank);
        addr := addr + bankSize;
        left := left - iterSize;
        pos := pos + iterSize;
        iterSize := bankSize;
        bank := bank + 1;
        if iterSize > left {
          iterSize := left;
        }
      }
    }

    lemma NextBank(bank: nat)
      ensures Low(bank + 1) == Low(bank) + bankSize
    {
    }
  }
}
