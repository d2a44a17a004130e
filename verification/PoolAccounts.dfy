/** The accounts of one website and the connections that are logged in with them. */
module PoolAccounts {

  class AccountProxy {
    const account: string
    const password: string
    const maxVisitTimesPerHour: int
    var reuseTimeInterval: int
    var failedNum: int
    var borrowNum: int

    constructor (account: string, password: string, reuseTimeInterval: int, maxVisitTimesPerHour: int)
      ensures this.account == account && this.password == password
      ensures this.maxVisitTimesPerHour == maxVisitTimesPerHour
      ensures this.reuseTimeInterval == reuseTimeInterval && failedNum == 0 && borrowNum == 0
    {
      this.account := account;
      this.password := password;
      this.maxVisitTimesPerHour := maxVisitTimesPerHour;
      this.reuseTimeInterval := reuseTimeInterval;
      failedNum, borrowNum := 0, 0;
    }

    method Borrow()
      modifies this`borrowNum
      ensures borrowNum == old(borrowNum) + 1
    {
      borrowNum := borrowNum + 1;
    }

    method ResetBorrowNum()
      modifies this`borrowNum
      ensures borrowNum == 0
    {
      borrowNum := 0;
    }

    method ResetFailedNum()
      modifies this`failedNum
      ensures failedNum == 0
    {
      failedNum := 0;
    }

    method SetReuseTimeInterval(interval: int)
      modifies this`reuseTimeInterval
      ensures reuseTimeInterval == interval
    {
      reuseTimeInterval := interval;
    }

    /** The borrows an hour allows; a negative maximum allows none. */
    function Limit(): nat {
      if maxVisitTimesPerHour < 0 then 0 else maxVisitTimesPerHour
    }
  }

  class Connection {
    const account: AccountProxy

    constructor (account: AccountProxy)
      ensures this.account == account
    {
      this.account := account;
    }

    method IsValid() returns (valid: bool)
      ensures valid <==> account.borrowNum < account.maxVisitTimesPerHour
    {
      valid := account.borrowNum < account.maxVisitTimesPerHour;
    }
  }
}
