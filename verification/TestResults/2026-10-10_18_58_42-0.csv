TestResult.DisplayName,TestResult.Outcome,TestResult.Duration,TestResult.ResourceCount,RandomSeed
Events.FireMultiset (correctness),Passed,00:00:00.1397070,125490,4
